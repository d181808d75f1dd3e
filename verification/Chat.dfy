/**
 Conversations: participants are deleted softly and restored, and a participant's createdAt hides every message that
 is not newer. Each event carries the clock readings it takes. Users and conversations have ids; a conversation's id is
 its position in the table.
 */
module Chat {
  import opened Wrappers

  datatype Participant = Participant(userId: string, createdAt: int, updatedAt: int, deletedAt: Option<int>)
  datatype Conversation = Conversation(isAdmin: bool, participants: seq<Participant>)
  datatype Letter = Letter(sender: string, receiver: string, content: string, files: seq<string>)
  datatype Message = Message(conversationId: nat, letter: Letter, createdAt: int, isSeen: bool)
  datatype Store = Store(conversations: seq<Conversation>, messages: seq<Message>)

  /** The readings createMessage takes: restoring or inserting each side, stamping, and inserting the message. */
  datatype Readings = Readings(receiver: int, sender: int, stamp: int, sent: int)

  datatype Event =
    | Send(conversationId: Option<nat>, letter: Letter, at: Readings)
    | Open(partner: string, reader: string, now: int)
    | Delete(id: nat, user: string, now: int)
    | Read(id: nat, user: string)
    | OpenAdmin(user: string, now: int)

  // ---------------------------------------------------------------- participants

  /** findOne on a conversation's participants: the first row of the user, deleted rows included or not. */
  function FindRow(ps: seq<Participant>, user: string, withDeleted: bool): (r: Option<nat>)
    ensures r.Some? ==> r.value < |ps| && ps[r.value].userId == user && (withDeleted || ps[r.value].deletedAt.None?)
    ensures r.Some? ==> forall k :: 0 <= k < r.value && ps[k].userId == user ==> !withDeleted && ps[k].deletedAt.Some?
    ensures r.None? ==> forall k :: 0 <= k < |ps| && ps[k].userId == user ==> !withDeleted && ps[k].deletedAt.Some?
  {
    if ps == [] then None
    else
      var last := |ps| - 1;
      var r := FindRow(ps[..last], user, withDeleted);
      if r.Some? then r
      else if ps[last].userId == user && (withDeleted || ps[last].deletedAt.None?) then Some(last)
      else None
  }

  function Restored(ps: seq<Participant>, user: string, now: int): seq<Participant> {
    match FindRow(ps, user, true)
    case None => ps
    case Some(k) =>
      if ps[k].deletedAt.Some? then ps[k := ps[k].(deletedAt := None, createdAt := now, updatedAt := now)] else ps
  }

  predicate HasLive(ps: seq<Participant>, user: string) {
    exists k :: 0 <= k < |ps| && ps[k].userId == user && ps[k].deletedAt.None?
  }

  /** A restore makes the user live and gives the row a new createdAt only if it was deleted; no one else's changes. */
  lemma AboutRestored(ps: seq<Participant>, user: string, now: int)
    ensures var qs := Restored(ps, user, now);
            && |qs| == |ps|
            && (HasLive(qs, user) <==> exists k :: 0 <= k < |ps| && ps[k].userId == user)
            && forall k :: 0 <= k < |ps| ==>
                 qs[k] == ps[k]
                 || (qs[k] == Participant(user, now, now, None) && ps[k].userId == user && ps[k].deletedAt.Some?)
  {
    var r, qs := FindRow(ps, user, true), Restored(ps, user, now);
    if r.Some? { assert qs[r.value].userId == user && qs[r.value].deletedAt.None?; }
    if k :| 0 <= k < |qs| && qs[k].userId == user && qs[k].deletedAt.None? { assert ps[k].userId == user; }
  }

  function Stamped(ps: seq<Participant>, now: int): seq<Participant> {
    seq(|ps|, k requires 0 <= k < |ps| => ps[k].(updatedAt := now))
  }

  function Removed(ps: seq<Participant>, user: string, now: int): seq<Participant> {
    match FindRow(ps, user, false)
    case None => ps
    case Some(k) => ps[k := ps[k].(deletedAt := Some(now), updatedAt := now)]
  }

  predicate Has(c: Conversation, user: string) {
    exists k :: 0 <= k < |c.participants| && c.participants[k].userId == user
  }

  /** COUNT(DISTINCT userId) = 2 over the two users. */
  predicate HasBoth(c: Conversation, u: string, v: string) { u != v && Has(c, u) && Has(c, v) }

  function FindExistingConversation(cs: seq<Conversation>, receiver: string, sender: string): (r: Option<nat>)
    ensures r.Some? ==> r.value < |cs| && HasBoth(cs[r.value], sender, receiver)
    ensures r.None? ==> forall c :: 0 <= c < |cs| ==> !HasBoth(cs[c], sender, receiver)
  {
    if cs == [] then None
    else
      var last := |cs| - 1;
      var r := FindExistingConversation(cs[..last], receiver, sender);
      if r.Some? then r else if HasBoth(cs[last], sender, receiver) then Some(last) else None
  }

  // ---------------------------------------------------------------- steps

  /** The conversation a message goes to: the named one, the pair's existing one, or a new one. */
  function Target(s: Store, e: Event): nat
    requires e.Send?
  {
    if e.conversationId.Some? then e.conversationId.value
    else
      match FindExistingConversation(s.conversations, e.letter.receiver, e.letter.sender)
      case Some(c) => c
      case None => |s.conversations|
  }

  predicate CreatesPair(s: Store, e: Event) {
    match e
    case Send(id, letter, _) =>
      id.None? && FindExistingConversation(s.conversations, letter.receiver, letter.sender).None?
    case Open(partner, reader, _) => FindExistingConversation(s.conversations, partner, reader).None?
    case OpenAdmin(user, _) => forall c :: c in s.conversations && c.isAdmin ==> !Has(c, user)
    case Delete(_, _, _) => false
    case Read(_, _) => false
  }

  function NewConversation(e: Event): Conversation
    requires e.Send? || e.Open? || e.OpenAdmin?
  {
    match e
    case Send(_, letter, at) =>
      Conversation(false, Stamped([Participant(letter.sender, at.sender, at.sender, None),
                                   Participant(letter.receiver, at.receiver, at.receiver, None)], at.stamp))
    case Open(partner, reader, now) =>
      Conversation(false, [Participant(reader, now, now, Some(now)), Participant(partner, now, now, Some(now))])
    case OpenAdmin(user, now) => Conversation(true, [Participant(user, now, now, None)])
  }

  function ParticipantsAfter(s: Store, e: Event, c: nat): seq<Participant>
    requires c < |s.conversations|
  {
    var ps := s.conversations[c].participants;
    match e
    case Send(_, letter, at) =>
      if Target(s, e) != c then ps
      else Stamped(Restored(Restored(ps, letter.receiver, at.receiver), letter.sender, at.sender), at.stamp)
    case Delete(id, user, now) => if id == c then Removed(ps, user, now) else ps
    case Open(_, _, _) => ps
    case Read(_, _) => ps
    case OpenAdmin(_, _) => ps
  }

  function MessagesAfter(s: Store, e: Event): seq<Message> {
    match e
    case Send(_, letter, at) => s.messages + [Message(Target(s, e), letter, at.sent, false)]
    case Read(id, user) => if CanRead(s, id, user) then Seen(s.messages, id, user) else s.messages
    case Open(_, _, _) => s.messages
    case Delete(_, _, _) => s.messages
    case OpenAdmin(_, _) => s.messages
  }

  function Seen(ms: seq<Message>, id: nat, user: string): seq<Message> {
    seq(|ms|, k requires 0 <= k < |ms| =>
      if ms[k].conversationId == id && ms[k].letter.receiver == user then ms[k].(isSeen := true) else ms[k])
  }

  predicate CanRead(s: Store, id: nat, user: string) {
    id < |s.conversations| && FindRow(s.conversations[id].participants, user, false).Some?
  }

  function Step(s: Store, e: Event): Store {
    var kept := seq(|s.conversations|, c requires 0 <= c < |s.conversations| =>
      s.conversations[c].(participants := ParticipantsAfter(s, e, c)));
    Store(kept + (if CreatesPair(s, e) then [NewConversation(e)] else []), MessagesAfter(s, e))
  }

  function Run(s: Store, es: seq<Event>): Store
    decreases |es|
  {
    if es == [] then s else Run(Step(s, es[0]), es[1..])
  }

  const EMPTY := Store([], [])

  // ---------------------------------------------------------------- reading

  function Letters(ms: seq<Message>, id: nat, since: int): seq<Letter> {
    if ms == [] then []
    else
      var m := ms[|ms| - 1];
      Letters(ms[..|ms| - 1], id, since) + if m.conversationId == id && m.createdAt > since then [m.letter] else []
  }

  /** getConversationById: what a user who has not deleted the conversation reads in it. */
  function GetConversationById(s: Store, id: nat, user: string): Result<seq<Letter>> {
    if !CanRead(s, id, user) then Err(NotFound)
    else
      var ps := s.conversations[id].participants;
      Ok(Letters(s.messages, id, ps[FindRow(ps, user, false).value].createdAt))
  }
}
