/** At most one conversation per pair of users, over every run of messages, opens and deletions. */
module Pairs {
  import opened Wrappers
  import opened Chat
  import opened Mailboxes

  ghost predicate PairsUnique(cs: seq<Conversation>) {
    forall c, d, u, v :: 0 <= c < d < |cs| && HasBoth(cs[c], u, v) ==> !HasBoth(cs[d], u, v)
  }

  predicate SameUsers(a: Conversation, b: Conversation) {
    |a.participants| == |b.participants|
    && forall k :: 0 <= k < |a.participants| ==> a.participants[k].userId == b.participants[k].userId
  }

  lemma SameUsersHave(a: Conversation, b: Conversation, user: string)
    requires SameUsers(a, b)
    ensures Has(a, user) <==> Has(b, user)
  {
    if k :| 0 <= k < |a.participants| && a.participants[k].userId == user { assert b.participants[k].userId == user; }
  }

  lemma SameUsersPair(a: seq<Conversation>, b: seq<Conversation>, c: nat, u: string, v: string)
    requires c < |a| && c < |b| && SameUsers(a[c], b[c])
    ensures HasBoth(a[c], u, v) <==> HasBoth(b[c], u, v)
  {
    SameUsersHave(a[c], b[c], u);
    SameUsersHave(a[c], b[c], v);
  }

  /** A new conversation holds no pair that another one holds. */
  lemma NewPairIsNew(s: Store, e: Event, c: nat, u: string, v: string)
    requires CreatesPair(s, e) && c < |s.conversations| && HasBoth(NewConversation(e), u, v)
    ensures !HasBoth(s.conversations[c], u, v)
  {
    match e
    case Send(_, letter, _) => assert !HasBoth(s.conversations[c], letter.sender, letter.receiver);
    case Open(partner, reader, _) => assert !HasBoth(s.conversations[c], reader, partner);
    case OpenAdmin(_, _) =>
    case Delete(_, _, _) =>
    case Read(_, _) =>
  }

  lemma PairsUniqueStep(s: Store, e: Event)
    requires PairsUnique(s.conversations)
    ensures PairsUnique(Step(s, e).conversations)
  {
    var was, next := s.conversations, Step(s, e).conversations;
    forall c | 0 <= c < |was| ensures SameUsers(was[c], next[c]) { SameUsersStep(s, e, c); }
    forall c, d, u, v | 0 <= c < d < |next| && HasBoth(next[c], u, v)
      ensures !HasBoth(next[d], u, v)
    {
      SameUsersPair(was, next, c, u, v);
      if d < |was| {
        SameUsersPair(was, next, d, u, v);
      } else if HasBoth(next[d], u, v) {
        NewPairIsNew(s, e, c, u, v);
      }
    }
  }

  /** Over every run, deleted participants included, two distinct users share at most one conversation. */
  lemma {:induction false} PairsUniqueRun(s: Store, es: seq<Event>)
    requires PairsUnique(s.conversations)
    ensures PairsUnique(Run(s, es).conversations)
    decreases |es|
  {
    if es != [] {
      PairsUniqueStep(s, es[0]);
      PairsUniqueRun(Step(s, es[0]), es[1..]);
    }
  }

  /** The lookup does not depend on who asks. */
  lemma {:induction false} LookupIsSymmetric(cs: seq<Conversation>, u: string, v: string)
    ensures FindExistingConversation(cs, u, v) == FindExistingConversation(cs, v, u)
  {
    if cs != [] { LookupIsSymmetric(cs[..|cs| - 1], u, v); }
  }

  predicate IsLive(s: Store, id: nat, user: string) {
    id < |s.conversations| && FindRow(s.conversations[id].participants, user, false).Some?
  }

  lemma RestoredIsLive(ps: seq<Participant>, user: string, now: int, other: string, live: string)
    requires exists k :: 0 <= k < |ps| && ps[k].userId == live && (ps[k].deletedAt.None? || live == user)
    ensures exists k :: 0 <= k < |ps|
              && Restored(ps, user, now)[k].userId == live && Restored(ps, user, now)[k].deletedAt.None?
  {
    var r := FindRow(ps, user, true);
    var k :| 0 <= k < |ps| && ps[k].userId == live && (ps[k].deletedAt.None? || live == user);
    assert r.Some? && live == user ==> Restored(ps, user, now)[r.value].deletedAt.None?;
    if ps[k].deletedAt.None? { assert Restored(ps, user, now)[k].deletedAt.None?; }
  }

  /** After a message to a user, rather than to a conversation, both sides are live in the pair's conversation. */
  lemma BothLiveAfterMessage(s: Store, letter: Letter, at: Readings)
    ensures var e := Send(None, letter, at);
            IsLive(Step(s, e), Target(s, e), letter.sender) && IsLive(Step(s, e), Target(s, e), letter.receiver)
  {
    var e := Send(None, letter, at);
    var id, next := Target(s, e), Step(s, e);
    var qs := next.conversations[id].participants;
    if CreatesPair(s, e) {
      assert qs[0].userId == letter.sender && qs[0].deletedAt.None?;
      assert qs[1].userId == letter.receiver && qs[1].deletedAt.None?;
    } else {
      var ps := s.conversations[id].participants;
      assert Has(s.conversations[id], letter.sender) && Has(s.conversations[id], letter.receiver);
      var p1 := Restored(ps, letter.receiver, at.receiver);
      RestoredIsLive(ps, letter.receiver, at.receiver, letter.sender, letter.receiver);
      assert exists k :: 0 <= k < |p1| && p1[k].userId == letter.sender by {
        var k :| 0 <= k < |ps| && ps[k].userId == letter.sender;
        assert p1[k].userId == letter.sender;
      }
      var p2 := Restored(p1, letter.sender, at.sender);
      RestoredIsLive(p1, letter.sender, at.sender, letter.sender, letter.sender);
      RestoredIsLive(p1, letter.sender, at.sender, letter.sender, letter.receiver);
      assert qs == Stamped(p2, at.stamp);
      forall user | user in {letter.sender, letter.receiver} ensures FindRow(qs, user, false).Some? {
        var k :| 0 <= k < |p2| && p2[k].userId == user && p2[k].deletedAt.None?;
        assert qs[k].userId == user && qs[k].deletedAt.None?;
      }
    }
  }

  // ---------------------------------------------------------------- conversations with the administration

  ghost predicate AdminsUnique(cs: seq<Conversation>) {
    && (forall c :: 0 <= c < |cs| ==> (cs[c].isAdmin <==> |cs[c].participants| == 1))
    && (forall c, d, u :: 0 <= c < d < |cs| && cs[c].isAdmin && cs[d].isAdmin && Has(cs[c], u) ==> !Has(cs[d], u))
  }

  lemma AdminsUniqueStep(s: Store, e: Event)
    requires AdminsUnique(s.conversations)
    ensures AdminsUnique(Step(s, e).conversations)
  {
    var before, next := s.conversations, Step(s, e).conversations;
    forall c | 0 <= c < |before| ensures SameUsers(before[c], next[c]) { SameUsersStep(s, e, c); }
    forall c, d, u | 0 <= c < d < |next| && next[c].isAdmin && next[d].isAdmin && Has(next[c], u)
      ensures !Has(next[d], u)
    {
      SameUsersHave(before[c], next[c], u);
      if d < |before| {
        SameUsersHave(before[d], next[d], u);
      } else {
        assert before[c] in before && !Has(before[c], e.user);
      }
    }
  }

  /** Over every run a user has at most one conversation with the administration, the only kind with one participant. */
  lemma {:induction false} AdminsUniqueRun(s: Store, es: seq<Event>)
    requires AdminsUnique(s.conversations)
    ensures AdminsUnique(Run(s, es).conversations)
    decreases |es|
  {
    if es != [] {
      AdminsUniqueStep(s, es[0]);
      AdminsUniqueRun(Step(s, es[0]), es[1..]);
    }
  }

  // ---------------------------------------------------------------- createConversation, which looks up by messages

  predicate Wrote(m: Message, u: string, v: string) {
    (m.letter.sender == u && m.letter.receiver == v) || (m.letter.sender == v && m.letter.receiver == u)
  }

  /** createConversation: reuses the conversation of any message of the pair, and otherwise makes a new one. */
  function CreateConversation(s: Store, sender: string, receiver: string, now: int): Store {
    if exists k :: 0 <= k < |s.messages| && Wrote(s.messages[k], sender, receiver) then s
    else s.(conversations := s.conversations
              + [Conversation(false, [Participant(sender, now, now, None), Participant(receiver, now, now, None)])])
  }

  /** A pair with no message gets a new conversation, both sides live from now on; a pair with one gets nothing new. */
  lemma CreateConversationIs(s: Store, sender: string, receiver: string, now: int)
    ensures var written := exists k :: 0 <= k < |s.messages|
                             && (s.messages[k].letter.sender, s.messages[k].letter.receiver)
                                in {(sender, receiver), (receiver, sender)};
            var after, n := CreateConversation(s, sender, receiver, now), |s.conversations|;
            && after.messages == s.messages
            && (written ==> after.conversations == s.conversations)
            && (!written ==>
                  && |after.conversations| == n + 1 && after.conversations[..n] == s.conversations
                  && !after.conversations[n].isAdmin
                  && after.conversations[n].participants
                     == [Participant(sender, now, now, None), Participant(receiver, now, now, None)])
  {}

  /** A pair whose chat page was opened, with no message yet: createConversation makes its second conversation. */
  lemma CreateConversationDuplicatesOpened(u: string, v: string, visit: int, now: int)
    requires u != v
    ensures var s := Run(EMPTY, [Open(v, u, visit)]);
            PairsUnique(s.conversations) && !PairsUnique(CreateConversation(s, u, v, now).conversations)
  {
    var e := Open(v, u, visit);
    var s := Run(EMPTY, [e]);
    assert PairsUnique(EMPTY.conversations);
    PairsUniqueRun(EMPTY, [e]);
    assert [e][1..] == [] && Run(Step(EMPTY, e), []) == Step(EMPTY, e);
    assert s == Step(EMPTY, e) && CreatesPair(EMPTY, e);
    var ps := s.conversations[0].participants;
    assert ps[0].userId == u && ps[1].userId == v;
    assert HasBoth(s.conversations[0], u, v);
    CreateConversationKeepsPairsIff(s, u, v, now);
  }

  /**
   createConversation keeps pairs unique exactly when the pair has a message already or shares no conversation: a
   conversation that was opened but never written in is duplicated.
   */
  lemma CreateConversationKeepsPairsIff(s: Store, sender: string, receiver: string, now: int)
    requires PairsUnique(s.conversations) && sender != receiver
    ensures PairsUnique(CreateConversation(s, sender, receiver, now).conversations)
            <==> (exists k :: 0 <= k < |s.messages|
                                && (s.messages[k].letter.sender, s.messages[k].letter.receiver)
                                   in {(sender, receiver), (receiver, sender)})
                 || (forall c :: 0 <= c < |s.conversations| ==> !HasBoth(s.conversations[c], sender, receiver))
  {
    var was, next := s.conversations, CreateConversation(s, sender, receiver, now).conversations;
    if |next| > |was| {
      var n := |was|;
      assert next[n].participants[0].userId == sender && next[n].participants[1].userId == receiver;
      assert HasBoth(next[n], sender, receiver);
      if c :| 0 <= c < n && HasBoth(was[c], sender, receiver) {
        assert HasBoth(next[c], sender, receiver);
      } else {
        forall c, u, v | 0 <= c < n && HasBoth(next[c], u, v)
          ensures !HasBoth(next[n], u, v)
        {
          assert !HasBoth(was[c], sender, receiver);
          assert HasBoth(next[n], u, v) ==> (u == sender && v == receiver) || (u == receiver && v == sender);
        }
      }
    }
  }
}
