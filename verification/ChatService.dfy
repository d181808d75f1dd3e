/** The message and conversation services, updating the chat tables in place. */
module ChatService {
  import opened Wrappers
  import opened Chat

  class ChatTables {
    var conversations: seq<Conversation>
    var messages: seq<Message>

    function View(): Store
      reads this
    {
      Store(conversations, messages)
    }

    /** A participant becomes live, with a new createdAt if the row was deleted; every other user's row stays. */
    method RestoreParticipant(id: nat, user: string, now: int)
      modifies this`conversations
      ensures |conversations| == |old(conversations)|
      ensures forall c :: 0 <= c < |conversations| && c != id ==> conversations[c] == old(conversations)[c]
      ensures id < |conversations| ==>
                && |conversations[id].participants| == |old(conversations)[id].participants|
                && (Has(old(conversations)[id], user) ==> HasLive(conversations[id].participants, user))
                && forall k :: 0 <= k < |conversations[id].participants| ==>
                     var was, row := old(conversations)[id].participants[k], conversations[id].participants[k];
                     row == was
                     || (row == Participant(user, now, now, None) && was.userId == user && was.deletedAt.Some?)
      ensures id < |conversations| ==>
                conversations[id] == old(conversations)[id]
                  .(participants := Restored(old(conversations)[id].participants, user, now))
    {
      if id >= |conversations| {
        return;
      }
      var ps := conversations[id].participants;
      AboutRestored(ps, user, now);
      match FindRow(ps, user, true)
      case None =>
        return;
      case Some(k) =>
        if ps[k].deletedAt.Some? {
          var participant := ps[k].(deletedAt := None, createdAt := now, updatedAt := now);
          conversations := conversations[id := conversations[id].(participants := ps[k := participant])];
        }
    }

    /** Only updatedAt changes, in every row of the one conversation, deleted rows included. */
    method UpdateConversationTimestamp(id: nat, now: int)
      modifies this`conversations
      ensures |conversations| == |old(conversations)|
      ensures forall c :: 0 <= c < |conversations| && c != id ==> conversations[c] == old(conversations)[c]
      ensures id < |conversations| ==>
                && |conversations[id].participants| == |old(conversations)[id].participants|
                && forall k :: 0 <= k < |conversations[id].participants| ==>
                     conversations[id].participants[k] == old(conversations)[id].participants[k].(updatedAt := now)
      ensures id < |conversations| ==>
                conversations[id] == old(conversations)[id]
                  .(participants := Stamped(old(conversations)[id].participants, now))
    {
      if id < |conversations| {
        conversations := conversations[id := conversations[id].(participants :=
          Stamped(conversations[id].participants, now))];
      }
    }

    /**
     createOrRestoreConversation: with create, a new pair is live and an old one restored;
     without, both stay away.
     */
    method CreateOrRestoreConversation(receiver: string, sender: string, receiverAt: int, senderAt: int, create: bool)
      returns (id: nat)
      modifies this`conversations
      ensures match FindExistingConversation(old(conversations), receiver, sender)
              case Some(c) =>
                && id == c && |conversations| == |old(conversations)|
                && (forall d :: 0 <= d < |conversations| && d != c ==> conversations[d] == old(conversations)[d])
                && conversations[c] == if !create then old(conversations)[c] else old(conversations)[c].(participants :=
                     Restored(Restored(old(conversations)[c].participants, receiver, receiverAt), sender, senderAt))
              case None =>
                && id == |old(conversations)|
                && conversations == old(conversations) + [Conversation(false, [
                     Participant(sender, senderAt, senderAt, if create then None else Some(senderAt)),
                     Participant(receiver, receiverAt, receiverAt, if create then None else Some(receiverAt))])]
    {
      var existing := FindExistingConversation(conversations, receiver, sender);
      if !create && existing.Some? {
        return existing.value;
      }
      if existing.Some? {
        RestoreParticipant(existing.value, receiver, receiverAt);
        RestoreParticipant(existing.value, sender, senderAt);
        return existing.value;
      }
      var deletedSender := if create then None else Some(senderAt);
      var deletedReceiver := if create then None else Some(receiverAt);
      conversations := conversations + [Conversation(false, [
        Participant(sender, senderAt, senderAt, deletedSender),
        Participant(receiver, receiverAt, receiverAt, deletedReceiver)])];
      return |conversations| - 1;
    }

    method CreateMessage(conversationId: Option<nat>, letter: Letter, at: Readings) returns (id: nat)
      modifies this
      ensures id == Target(old(View()), Send(conversationId, letter, at))
      ensures conversationId.Some? ==> id == conversationId.value
      ensures messages == old(messages) + [Message(id, letter, at.sent, false)]
      ensures id < |conversations| ==>
                forall k :: 0 <= k < |conversations[id].participants| ==>
                  conversations[id].participants[k].updatedAt == at.stamp
      ensures View() == Step(old(View()), Send(conversationId, letter, at))
    {
      ghost var before := View();
      ghost var e := Send(conversationId, letter, at);
      if conversationId.None? {
        id := CreateOrRestoreConversation(letter.receiver, letter.sender, at.receiver, at.sender, true);
      } else {
        id := conversationId.value;
        RestoreParticipant(id, letter.receiver, at.receiver);
        RestoreParticipant(id, letter.sender, at.sender);
      }
      UpdateConversationTimestamp(id, at.stamp);
      messages := messages + [Message(id, letter, at.sent, false)];
      assert conversations == Step(before, e).conversations;
    }

    method DeleteConversation(id: nat, user: string, now: int) returns (r: Result<bool>)
      modifies this`conversations
      ensures View() == Step(old(View()), Delete(id, user, now))
      ensures r == if CanRead(old(View()), id, user) then Ok(true) else Err(NotFound)
      ensures forall c, k :: 0 <= c < |conversations| && 0 <= k < |conversations[c].participants| ==>
                var was, row := old(conversations)[c].participants[k], conversations[c].participants[k];
                row == was || (c == id && was.userId == user && was.deletedAt == None
                               && row == was.(deletedAt := Some(now), updatedAt := now))
    {
      ghost var before := View();
      if id >= |conversations| {
        assert conversations == Step(before, Delete(id, user, now)).conversations;
        return Err(NotFound);
      }
      var ps := conversations[id].participants;
      match FindRow(ps, user, false)
      case None =>
        assert conversations == Step(before, Delete(id, user, now)).conversations;
        return Err(NotFound);
      case Some(k) =>
        var participant := ps[k].(deletedAt := Some(now), updatedAt := now);
        conversations := conversations[id := conversations[id].(participants := ps[k := participant])];
        assert conversations == Step(before, Delete(id, user, now)).conversations;
        return Ok(true);
    }

    /** Reading marks the reader's messages seen and answers with the letters newer than the reader's row. */
    method ReadConversation(id: nat, user: string) returns (r: Result<seq<Letter>>)
      modifies this`messages
      ensures r == GetConversationById(old(View()), id, user)
      ensures View() == Step(old(View()), Read(id, user))
      ensures |messages| == |old(messages)|
      ensures forall k :: 0 <= k < |messages| ==>
                var was, m := old(messages)[k], messages[k];
                && m == was.(isSeen := m.isSeen)
                && (m.isSeen <==> was.isSeen || (r.Ok? && was.conversationId == id && was.letter.receiver == user))
    {
      ghost var before := View();
      assert conversations == Step(before, Read(id, user)).conversations;
      if id >= |conversations| {
        return Err(NotFound);
      }
      var ps := conversations[id].participants;
      match FindRow(ps, user, false)
      case None =>
        return Err(NotFound);
      case Some(k) =>
        r := Ok(Letters(messages, id, ps[k].createdAt));
        messages := Seen(messages, id, user);
    }

    /** getConversationByUserId: opening a chat page creates the pair's conversation with both sides away. */
    method GetConversationByUserId(partner: string, reader: string, now: int)
      returns (id: nat, participant: Participant)
      modifies this`conversations
      ensures View() == Step(old(View()), Open(partner, reader, now))
      ensures id < |conversations| && participant in conversations[id].participants && participant.userId == reader
      ensures Has(conversations[id], partner)
      ensures id == |old(conversations)| ==> participant == Participant(reader, now, now, Some(now))
    {
      ghost var before := View();
      id := CreateOrRestoreConversation(partner, reader, now, now, false);
      assert conversations == Step(before, Open(partner, reader, now)).conversations;
      var ps := conversations[id].participants;
      assert id == |before.conversations| ==> ps[0].userId == reader && ps[1].userId == partner;
      participant := ps[FindRow(ps, reader, true).value];
    }
  }
}
