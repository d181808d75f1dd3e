/**
 The timestamps of the chat tables implement clock-free mailboxes: a user's box in a conversation is emptied when the
 user deletes it, starts empty on a restore, and otherwise receives every message.
 */
module Mailboxes {
  import opened Wrappers
  import opened Chat

  /** Not a participant; a participant who deleted the conversation; or a live one with the letters readable. */
  datatype Box = Outside | Away | Here(letters: seq<Letter>)

  /** What the tables show of a box. */
  function View(s: Store, id: nat, user: string): Box {
    if id >= |s.conversations| || !Has(s.conversations[id], user) then Outside
    else
      var r := GetConversationById(s, id, user);
      if r.Ok? then Here(r.value) else Away
  }

  predicate Concerns(e: Event, user: string)
    requires e.Send?
  {
    user == e.letter.sender || user == e.letter.receiver
  }

  function Received(box: Box, e: Event, user: string): Box
    requires e.Send?
  {
    match box
    case Outside => Outside
    case Away => if Concerns(e, user) then Here([e.letter]) else Away
    case Here(letters) => Here(letters + [e.letter])
  }

  /** One event on the box of a user in a conversation, without clocks. */
  function BoxStep(s: Store, e: Event, id: nat, user: string, box: Box): Box {
    var isNew := CreatesPair(s, e) && id == |s.conversations|;
    match e
    case Send(_, _, _) =>
      if Target(s, e) != id then box
      else if isNew then (if Concerns(e, user) then Here([e.letter]) else Outside)
      else Received(box, e, user)
    case Open(partner, reader, _) => if isNew && (user == partner || user == reader) then Away else box
    case OpenAdmin(admin, _) => if isNew && user == admin then Here([]) else box
    case Delete(deleted, deleter, _) => if id == deleted && user == deleter && box.Here? then Away else box
    case Read(_, _) => box
  }

  function BoxRun(s: Store, es: seq<Event>, id: nat, user: string, box: Box): Box
    decreases |es|
  {
    if es == [] then box else BoxRun(Step(s, es[0]), es[1..], id, user, BoxStep(s, es[0], id, user, box))
  }

  // ---------------------------------------------------------------- clocks

  function LastReading(e: Event, clock: int): int {
    match e
    case Send(_, _, at) => at.sent
    case Open(_, _, now) => now
    case Delete(_, _, now) => now
    case Read(_, _) => clock
    case OpenAdmin(_, now) => now
  }

  /** The readings of an event come after the clock, and a message's own reading after those of the same call. */
  predicate Ticks(e: Event, clock: int) {
    match e
    case Send(_, _, at) => clock < at.receiver < at.sent && clock < at.sender < at.sent
    case Open(_, _, now) => clock < now
    case Delete(_, _, now) => clock < now
    case Read(_, _) => true
    case OpenAdmin(_, now) => clock < now
  }

  predicate StrictClock(es: seq<Event>, clock: int)
    decreases |es|
  {
    es == [] || (Ticks(es[0], clock) && StrictClock(es[1..], LastReading(es[0], clock)))
  }

  /** Everything in the tables was written no later than the clock. */
  predicate WrittenBy(s: Store, clock: int) {
    && (forall k :: 0 <= k < |s.messages| ==> s.messages[k].createdAt <= clock)
    && (forall c, k :: 0 <= c < |s.conversations| && 0 <= k < |s.conversations[c].participants| ==>
          s.conversations[c].participants[k].createdAt <= clock)
  }

  // ---------------------------------------------------------------- participants of one conversation

  /** The user has at most one row among the participants. */
  predicate Once(ps: seq<Participant>, user: string) {
    forall j, k :: 0 <= j < k < |ps| ==> !(ps[j].userId == user && ps[k].userId == user)
  }

  datatype Member = NoMember | Gone | Since(t: int)

  function MemberOf(ps: seq<Participant>, user: string): Member {
    match FindRow(ps, user, true)
    case None => NoMember
    case Some(k) => if ps[k].deletedAt.Some? then Gone else Since(ps[k].createdAt)
  }

  /** With one row per user, the live row is the user's row. */
  lemma OneRow(ps: seq<Participant>, user: string, k: nat)
    requires Once(ps, user) && k < |ps| && ps[k].userId == user
    ensures FindRow(ps, user, true) == Some(k)
    ensures FindRow(ps, user, false) == if ps[k].deletedAt.None? then Some(k) else None
  {}

  lemma RestoredMember(ps: seq<Participant>, who: string, now: int, user: string)
    requires Once(ps, user)
    ensures Once(Restored(ps, who, now), user)
    ensures MemberOf(Restored(ps, who, now), user)
            == if user == who && MemberOf(ps, user) == Gone then Since(now) else MemberOf(ps, user)
  {
    var qs := Restored(ps, who, now);
    var r := FindRow(ps, user, true);
    if r.Some? { OneRow(ps, user, r.value); OneRow(qs, user, r.value); }
  }

  lemma StampedMember(ps: seq<Participant>, now: int, user: string)
    requires Once(ps, user)
    ensures Once(Stamped(ps, now), user) && MemberOf(Stamped(ps, now), user) == MemberOf(ps, user)
  {
    var r := FindRow(ps, user, true);
    if r.Some? { OneRow(ps, user, r.value); OneRow(Stamped(ps, now), user, r.value); }
  }

  lemma RemovedMember(ps: seq<Participant>, who: string, now: int, user: string)
    requires Once(ps, user)
    ensures Once(Removed(ps, who, now), user)
    ensures MemberOf(Removed(ps, who, now), user)
            == if user == who && MemberOf(ps, user).Since? then Gone else MemberOf(ps, user)
  {
    var r := FindRow(ps, user, true);
    if r.Some? { OneRow(ps, user, r.value); OneRow(Removed(ps, who, now), user, r.value); }
  }

  /** The box shown is a function of the membership and the messages. */
  function BoxOf(m: Member, ms: seq<Message>, id: nat): Box {
    match m
    case NoMember => Outside
    case Gone => Away
    case Since(t) => Here(Letters(ms, id, t))
  }

  lemma ViewIsBoxOf(s: Store, id: nat, user: string)
    requires id < |s.conversations| && Once(s.conversations[id].participants, user)
    ensures View(s, id, user) == BoxOf(MemberOf(s.conversations[id].participants, user), s.messages, id)
  {
    var ps := s.conversations[id].participants;
    var r := FindRow(ps, user, true);
    if r.Some? {
      OneRow(ps, user, r.value);
    }
  }

  // ---------------------------------------------------------------- messages

  lemma {:induction false} NothingNewer(ms: seq<Message>, id: nat, since: int)
    requires forall k :: 0 <= k < |ms| ==> ms[k].createdAt <= since
    ensures Letters(ms, id, since) == []
  {
    if ms != [] { NothingNewer(ms[..|ms| - 1], id, since); }
  }

  lemma LettersAfterSend(ms: seq<Message>, m: Message, id: nat, since: int)
    ensures Letters(ms + [m], id, since)
            == Letters(ms, id, since) + if m.conversationId == id && m.createdAt > since then [m.letter] else []
  {
    assert (ms + [m])[..|ms|] == ms;
  }

  lemma {:induction false} SeenKeepsLetters(ms: seq<Message>, read: nat, user: string, id: nat, since: int)
    ensures Letters(Seen(ms, read, user), id, since) == Letters(ms, id, since)
  {
    if ms != [] {
      assert Seen(ms, read, user)[..|ms| - 1] == Seen(ms[..|ms| - 1], read, user);
      SeenKeepsLetters(ms[..|ms| - 1], read, user, id, since);
    }
  }

  /** A message sent in a conversation, seen by each kind of member of it. */
  lemma SendToMember(ms: seq<Message>, e: Event, id: nat, before: Member, after: Member, user: string, clock: int)
    requires e.Send? && Ticks(e, clock)
    requires forall k :: 0 <= k < |ms| ==> ms[k].createdAt <= clock
    requires before.Since? ==> before.t <= clock && after == before
    requires before.NoMember? ==> after == before
    requires before.Gone? ==> if Concerns(e, user) then after.Since? && clock < after.t < e.at.sent else after.Gone?
    ensures BoxOf(after, ms + [Message(id, e.letter, e.at.sent, false)], id) == Received(BoxOf(before, ms, id), e, user)
  {
    if after.Since? {
      LettersAfterSend(ms, Message(id, e.letter, e.at.sent, false), id, after.t);
      if before.Gone? { NothingNewer(ms, id, after.t); }
    }
  }

  // ---------------------------------------------------------------- the refinement, one step

  lemma MemberWritten(s: Store, id: nat, user: string, clock: int)
    requires WrittenBy(s, clock) && id < |s.conversations|
    ensures var m := MemberOf(s.conversations[id].participants, user); m.Since? ==> m.t <= clock
  {}

  lemma SendKeepsView(s: Store, e: Event, id: nat, user: string, clock: int)
    requires e.Send? && Ticks(e, clock) && WrittenBy(s, clock)
    requires id < |s.conversations| && Once(s.conversations[id].participants, user)
    ensures View(Step(s, e), id, user) == BoxStep(s, e, id, user, View(s, id, user))
  {
    var ps, next := s.conversations[id].participants, Step(s, e);
    ViewIsBoxOf(s, id, user);
    MemberWritten(s, id, user, clock);
    var qs := next.conversations[id].participants;
    if Target(s, e) == id {
      var p1 := Restored(ps, e.letter.receiver, e.at.receiver);
      var p2 := Restored(p1, e.letter.sender, e.at.sender);
      RestoredMember(ps, e.letter.receiver, e.at.receiver, user);
      RestoredMember(p1, e.letter.sender, e.at.sender, user);
      StampedMember(p2, e.at.stamp, user);
      assert qs == Stamped(p2, e.at.stamp);
      SendToMember(s.messages, e, id, MemberOf(ps, user), MemberOf(qs, user), user, clock);
    } else {
      assert qs == ps;
      var m := MemberOf(ps, user);
      if m.Since? { LettersAfterSend(s.messages, Message(Target(s, e), e.letter, e.at.sent, false), id, m.t); }
    }
    ViewIsBoxOf(next, id, user);
  }

  lemma OtherKeepsView(s: Store, e: Event, id: nat, user: string)
    requires !e.Send?
    requires id < |s.conversations| && Once(s.conversations[id].participants, user)
    ensures View(Step(s, e), id, user) == BoxStep(s, e, id, user, View(s, id, user))
  {
    var ps, next := s.conversations[id].participants, Step(s, e);
    ViewIsBoxOf(s, id, user);
    if e.Delete? && e.id == id { RemovedMember(ps, e.user, e.now, user); }
    var qs := next.conversations[id].participants;
    assert Once(qs, user);
    ViewIsBoxOf(next, id, user);
    var m := MemberOf(qs, user);
    if e.Read? && m.Since? { SeenKeepsLetters(s.messages, e.id, e.user, id, m.t); }
  }

  lemma NewConversationView(s: Store, e: Event, user: string, clock: int)
    requires Ticks(e, clock) && WrittenBy(s, clock) && CreatesPair(s, e)
    requires Once(NewConversation(e).participants, user)
    ensures View(Step(s, e), |s.conversations|, user) == BoxStep(s, e, |s.conversations|, user, Outside)
  {
    var id, next := |s.conversations|, Step(s, e);
    var ps := NewConversation(e).participants;
    assert next.conversations[id].participants == ps;
    ViewIsBoxOf(next, id, user);
    if ps[0].userId == user { OneRow(ps, user, 0); }
    if |ps| == 2 && ps[1].userId == user { OneRow(ps, user, 1); }
    var m := MemberOf(ps, user);
    if m.Since? {
      NothingNewer(s.messages, id, m.t);
      if e.Send? { LettersAfterSend(s.messages, Message(id, e.letter, e.at.sent, false), id, m.t); }
    }
  }

  /** One event changes the tables the way it changes the box. */
  lemma StepRefines(s: Store, e: Event, id: nat, user: string, clock: int)
    requires Ticks(e, clock) && WrittenBy(s, clock)
    requires id < |Step(s, e).conversations| ==> Once(Step(s, e).conversations[id].participants, user)
    ensures View(Step(s, e), id, user) == BoxStep(s, e, id, user, View(s, id, user))
  {
    if id < |s.conversations| {
      SameUsersStep(s, e, id);
      if e.Send? { SendKeepsView(s, e, id, user, clock); } else { OtherKeepsView(s, e, id, user); }
    } else if id < |Step(s, e).conversations| {
      NewConversationView(s, e, user, clock);
    }
  }

  // ---------------------------------------------------------------- the refinement, whole runs

  /** Participants are never added to or taken from a conversation. */
  lemma SameUsersStep(s: Store, e: Event, id: nat)
    requires id < |s.conversations|
    ensures id < |Step(s, e).conversations|
    ensures var ps, qs := s.conversations[id].participants, Step(s, e).conversations[id].participants;
            |ps| == |qs| && forall k :: 0 <= k < |ps| ==> qs[k].userId == ps[k].userId
  {}

  lemma {:induction false} SameUsersRun(s: Store, es: seq<Event>, id: nat)
    requires id < |s.conversations|
    ensures id < |Run(s, es).conversations|
    ensures var ps, qs := s.conversations[id].participants, Run(s, es).conversations[id].participants;
            |ps| == |qs| && forall k :: 0 <= k < |ps| ==> qs[k].userId == ps[k].userId
    decreases |es|
  {
    if es != [] {
      SameUsersStep(s, es[0], id);
      SameUsersRun(Step(s, es[0]), es[1..], id);
    }
  }

  lemma StepWrittenBy(s: Store, e: Event, clock: int)
    requires Ticks(e, clock) && WrittenBy(s, clock)
    ensures WrittenBy(Step(s, e), LastReading(e, clock))
  {
    var next, t := Step(s, e), LastReading(e, clock);
    forall c, k | 0 <= c < |next.conversations| && 0 <= k < |next.conversations[c].participants|
      ensures next.conversations[c].participants[k].createdAt <= t
    {
      if c < |s.conversations| {
        SameUsersStep(s, e, c);
        assert s.conversations[c].participants[k].createdAt <= clock;
      }
    }
  }

  /**
   For every run of sends, opens, deletes, reads and restores on a strictly increasing clock, what the tables show a
   user in a conversation is the user's clock-free box: exactly the messages sent there since the user last joined it
   or was restored to it. The one condition is that the user has a single row there; see TwoRowsIffSelf.
   */
  lemma {:induction false} TablesAreMailboxes(s: Store, es: seq<Event>, id: nat, user: string, clock: int)
    requires StrictClock(es, clock) && WrittenBy(s, clock)
    requires id < |Run(s, es).conversations| ==> Once(Run(s, es).conversations[id].participants, user)
    ensures View(Run(s, es), id, user) == BoxRun(s, es, id, user, View(s, id, user))
    decreases |es|
  {
    if es != [] {
      var next := Step(s, es[0]);
      if id < |next.conversations| { SameUsersRun(next, es[1..], id); }
      StepRefines(s, es[0], id, user, clock);
      StepWrittenBy(s, es[0], clock);
      TablesAreMailboxes(next, es[1..], id, user, LastReading(es[0], clock));
    }
  }

  // ---------------------------------------------------------------- seen messages

  /** The user reads the conversation during the run, and is not refused. */
  predicate ReadDuring(s: Store, es: seq<Event>, id: nat, user: string) {
    exists k :: 0 <= k < |es| && es[k] == Read(id, user) && GetConversationById(Run(s, es[..k]), id, user).Ok?
  }

  lemma ReadDuringFirst(s: Store, es: seq<Event>, id: nat, user: string)
    requires es != []
    ensures ReadDuring(s, es, id, user)
            <==> (es[0] == Read(id, user) && GetConversationById(s, id, user).Ok?)
                 || ReadDuring(Step(s, es[0]), es[1..], id, user)
  {
    var next, rest := Step(s, es[0]), es[1..];
    assert es[..0] == [] && Run(s, es[..0]) == s;
    forall k | 0 < k < |es| ensures Run(s, es[..k]) == Run(next, rest[..k - 1]) && es[k] == rest[k - 1] {
      assert es[..k][1..] == rest[..k - 1];
    }
    if ReadDuring(next, rest, id, user) {
      var k :| 0 <= k < |rest| && rest[k] == Read(id, user) && GetConversationById(Run(next, rest[..k]), id, user).Ok?;
      assert es[k + 1] == Read(id, user) && Run(s, es[..k + 1]) == Run(next, rest[..k]);
    }
    if ReadDuring(s, es, id, user) {
      var k :| 0 <= k < |es| && es[k] == Read(id, user) && GetConversationById(Run(s, es[..k]), id, user).Ok?;
      if k > 0 { assert rest[k - 1] == Read(id, user) && Run(next, rest[..k - 1]) == Run(s, es[..k]); }
    }
  }

  /** A step keeps every message, and marks it seen exactly when it is its receiver's accepted read. */
  lemma MessageAfterStep(s: Store, e: Event, k: nat)
    requires k < |s.messages|
    ensures k < |Step(s, e).messages|
    ensures var was, m := s.messages[k], Step(s, e).messages[k];
            && m == was.(isSeen := m.isSeen)
            && (m.isSeen <==> was.isSeen || (e == Read(was.conversationId, was.letter.receiver)
                                             && GetConversationById(s, was.conversationId, was.letter.receiver).Ok?))
  {}

  /**
   Over every run a message keeps its place, letter and reading, and is seen exactly when it was before or its own
   receiver read that conversation since.
   */
  lemma {:induction false} SeenIffRead(s: Store, es: seq<Event>, k: nat)
    requires k < |s.messages|
    ensures k < |Run(s, es).messages|
    ensures var was, m := s.messages[k], Run(s, es).messages[k];
            && m == was.(isSeen := m.isSeen)
            && (m.isSeen <==> was.isSeen || ReadDuring(s, es, was.conversationId, was.letter.receiver))
    decreases |es|
  {
    if es != [] {
      MessageAfterStep(s, es[0], k);
      SeenIffRead(Step(s, es[0]), es[1..], k);
      ReadDuringFirst(s, es, s.messages[k].conversationId, s.messages[k].letter.receiver);
    }
  }

  /** A sent message is the last row, and seen later exactly when its receiver reads the conversation after it. */
  lemma SentIsSeenIffRead(s: Store, id: Option<nat>, letter: Letter, at: Readings, later: seq<Event>)
    ensures var e := Send(id, letter, at);
            var sent, after := Step(s, e), Run(Step(s, e), later);
            && |s.messages| < |after.messages|
            && after.messages[|s.messages|].letter == letter
            && after.messages[|s.messages|].conversationId == Target(s, e)
            && (after.messages[|s.messages|].isSeen <==> ReadDuring(sent, later, Target(s, e), letter.receiver))
  {
    SeenIffRead(Step(s, Send(id, letter, at)), later, |s.messages|);
  }

  // ---------------------------------------------------------------- who has two rows

  ghost predicate SmallConversations(s: Store) {
    forall c :: 0 <= c < |s.conversations| ==> 1 <= |s.conversations[c].participants| <= 2
  }

  lemma SmallConversationsStep(s: Store, e: Event)
    requires SmallConversations(s)
    ensures SmallConversations(Step(s, e))
  {
    var next := Step(s, e);
    forall c | 0 <= c < |next.conversations| ensures 1 <= |next.conversations[c].participants| <= 2 {
      if c < |s.conversations| { SameUsersStep(s, e, c); }
    }
  }

  lemma {:induction false} SmallConversationsRun(s: Store, es: seq<Event>)
    requires SmallConversations(s)
    ensures SmallConversations(Run(s, es))
    decreases |es|
  {
    if es != [] {
      SmallConversationsStep(s, es[0]);
      SmallConversationsRun(Step(s, es[0]), es[1..]);
    }
  }

  /** In every reachable table a user has two rows in a conversation exactly when it is one with oneself. */
  lemma TwoRowsIffSelf(es: seq<Event>, id: nat, user: string)
    requires id < |Run(EMPTY, es).conversations|
    ensures var ps := Run(EMPTY, es).conversations[id].participants;
            !Once(ps, user) <==> |ps| == 2 && ps[0].userId == user && ps[1].userId == user
  {
    SmallConversationsRun(EMPTY, es);
  }

  /** A message or a visit of the user to oneself. */
  predicate ToSelf(e: Event, user: string) {
    match e
    case Send(_, letter, _) => letter.sender == user && letter.receiver == user
    case Open(partner, reader, _) => partner == user && reader == user
    case Delete(_, _, _) => false
    case Read(_, _) => false
    case OpenAdmin(_, _) => false
  }

  predicate OnceEverywhere(s: Store, user: string) {
    forall c :: 0 <= c < |s.conversations| ==> Once(s.conversations[c].participants, user)
  }

  lemma OnceStep(s: Store, e: Event, user: string)
    requires OnceEverywhere(s, user) && !ToSelf(e, user)
    ensures OnceEverywhere(Step(s, e), user)
  {
    var next := Step(s, e);
    forall c | 0 <= c < |next.conversations| ensures Once(next.conversations[c].participants, user) {
      if c < |s.conversations| {
        SameUsersStep(s, e, c);
        assert Once(s.conversations[c].participants, user);
      }
    }
  }

  lemma {:induction false} OnceRun(s: Store, es: seq<Event>, user: string)
    requires OnceEverywhere(s, user) && forall k :: 0 <= k < |es| ==> !ToSelf(es[k], user)
    ensures OnceEverywhere(Run(s, es), user)
    decreases |es|
  {
    if es != [] {
      OnceStep(s, es[0], user);
      OnceRun(Step(s, es[0]), es[1..], user);
    }
  }

  /** From the empty tables, for a user who never addresses oneself, every conversation shows the mailbox. */
  lemma MailboxesFromEmpty(es: seq<Event>, id: nat, user: string, clock: int)
    requires StrictClock(es, clock) && forall k :: 0 <= k < |es| ==> !ToSelf(es[k], user)
    ensures View(Run(EMPTY, es), id, user) == BoxRun(EMPTY, es, id, user, Outside)
  {
    OnceRun(EMPTY, es, user);
    TablesAreMailboxes(EMPTY, es, id, user, clock);
  }

  // ---------------------------------------------------------------- consequences

  /** The letters a run sends to a conversation, in order. */
  function Sent(s: Store, es: seq<Event>, id: nat): seq<Letter>
    decreases |es|
  {
    if es == [] then [] else SentBy(s, es[0], id) + Sent(Step(s, es[0]), es[1..], id)
  }

  function SentBy(s: Store, e: Event, id: nat): seq<Letter> {
    if e.Send? && Target(s, e) == id then [e.letter] else []
  }

  predicate IsSuffix(a: seq<Letter>, b: seq<Letter>) { |a| <= |b| && a == b[|b| - |a|..] }

  /** A box ends up with all that was sent, on top of what it held, or with an end of what was sent. */
  lemma {:induction false} BoxHoldsLaterLetters(s: Store, es: seq<Event>, id: nat, user: string, box: Box)
    requires id < |s.conversations|
    ensures var after, sent := BoxRun(s, es, id, user, box), Sent(s, es, id);
            after.Here? ==> IsSuffix(after.letters, sent) || (box.Here? && after.letters == box.letters + sent)
    decreases |es|
  {
    if es != [] {
      var next, first := BoxStep(s, es[0], id, user, box), SentBy(s, es[0], id);
      SameUsersStep(s, es[0], id);
      BoxHoldsLaterLetters(Step(s, es[0]), es[1..], id, user, next);
      var after, rest := BoxRun(s, es, id, user, box), Sent(Step(s, es[0]), es[1..], id);
      assert Sent(s, es, id) == first + rest;
      if after.Here? && next.Here? && after.letters == next.letters + rest {
        if box.Here? {
          assert next.letters == box.letters + first;
          assert after.letters == box.letters + (first + rest);
        } else {
          assert next.letters == first;
        }
      }
    }
  }

  /**
   After a user deletes a conversation, what that user reads there is never more than an end of what was sent to it
   after the deletion, letter by letter: a copy of an old letter counts only as often as it was sent again.
   */
  lemma DeletedNeverReappears(s: Store, id: nat, user: string, now: int, es: seq<Event>, clock: int)
    requires WrittenBy(s, clock) && clock < now && StrictClock(es, now)
    requires id < |s.conversations| && Once(s.conversations[id].participants, user) && View(s, id, user).Here?
    ensures View(Step(s, Delete(id, user, now)), id, user) == Away
    ensures var after := View(Run(Step(s, Delete(id, user, now)), es), id, user);
            after.Here? ==> IsSuffix(after.letters, Sent(Step(s, Delete(id, user, now)), es, id))
  {
    var e := Delete(id, user, now);
    var next := Step(s, e);
    SameUsersStep(s, e, id);
    StepRefines(s, e, id, user, clock);
    StepWrittenBy(s, e, clock);
    SameUsersRun(next, es, id);
    TablesAreMailboxes(next, es, id, user, now);
    BoxHoldsLaterLetters(next, es, id, user, Away);
  }

  /** A deletion takes nothing from anyone else, nor from the user's other conversations. */
  lemma PartnerLosesNothing(s: Store, id: nat, user: string, now: int, other: nat, partner: string)
    requires other < |s.conversations| && Once(s.conversations[other].participants, partner)
    requires other != id || partner != user
    ensures View(Step(s, Delete(id, user, now)), other, partner) == View(s, other, partner)
  {
    OtherKeepsView(s, Delete(id, user, now), other, partner);
  }

  /** A message that restores a user is readable to that user exactly when its reading is after the restore's. */
  lemma RestoringMessageVisibleIff(s: Store, id: nat, letter: Letter, at: Readings)
    requires id < |s.conversations| && letter.sender != letter.receiver
    requires Once(s.conversations[id].participants, letter.receiver) && View(s, id, letter.receiver) == Away
    requires forall k :: 0 <= k < |s.messages| ==> s.messages[k].createdAt <= at.receiver
    ensures View(Step(s, Send(Some(id), letter, at)), id, letter.receiver)
            == Here(if at.sent > at.receiver then [letter] else [])
  {
    var e := Send(Some(id), letter, at);
    var ps, next := s.conversations[id].participants, Step(s, e);
    var p1 := Restored(ps, letter.receiver, at.receiver);
    var p2 := Restored(p1, letter.sender, at.sender);
    ViewIsBoxOf(s, id, letter.receiver);
    RestoredMember(ps, letter.receiver, at.receiver, letter.receiver);
    RestoredMember(p1, letter.sender, at.sender, letter.receiver);
    StampedMember(p2, at.stamp, letter.receiver);
    assert next.conversations[id].participants == Stamped(p2, at.stamp);
    ViewIsBoxOf(next, id, letter.receiver);
    NothingNewer(s.messages, id, at.receiver);
    LettersAfterSend(s.messages, Message(id, letter, at.sent, false), id, at.receiver);
  }

  predicate LiveTwice(ps: seq<Participant>, user: string) {
    exists j, k :: 0 <= j < k < |ps| && ps[j].userId == user && ps[j].deletedAt.None?
                   && ps[k].userId == user && ps[k].deletedAt.None?
  }

  /** Deleting a readable conversation hides it exactly when the user has no second live row in it. */
  lemma DeletionHidesIff(s: Store, id: nat, user: string, now: int)
    requires View(s, id, user).Here?
    ensures View(Step(s, Delete(id, user, now)), id, user) == Away
            <==> !LiveTwice(s.conversations[id].participants, user)
  {
    var e := Delete(id, user, now);
    var ps, next := s.conversations[id].participants, Step(s, e);
    var qs, k := next.conversations[id].participants, FindRow(ps, user, false).value;
    assert qs == Removed(ps, user, now) && qs[k].userId == user && Has(next.conversations[id], user);
    if LiveTwice(ps, user) {
      var i, j :| 0 <= i < j < |ps| && ps[i].userId == user && ps[i].deletedAt.None?
                  && ps[j].userId == user && ps[j].deletedAt.None?;
      var other := if i == k then j else i;
      assert qs[other] == ps[other];
    }
  }

  /** In every reachable table: exactly when it is not a conversation with oneself whose rows are both live. */
  lemma DeletionHidesUnlessSelf(es: seq<Event>, id: nat, user: string, now: int)
    requires View(Run(EMPTY, es), id, user).Here?
    ensures var ps := Run(EMPTY, es).conversations[id].participants;
            View(Step(Run(EMPTY, es), Delete(id, user, now)), id, user) == Away
            <==> !(|ps| == 2 && forall k :: 0 <= k < 2 ==> ps[k].userId == user && ps[k].deletedAt.None?)
  {
    SmallConversationsRun(EMPTY, es);
    DeletionHidesIff(Run(EMPTY, es), id, user, now);
    var ps := Run(EMPTY, es).conversations[id].participants;
    if |ps| == 2 && forall k :: 0 <= k < 2 ==> ps[k].userId == user && ps[k].deletedAt.None? {
      assert ps[0].userId == ps[1].userId == user && ps[0].deletedAt.None? && ps[1].deletedAt.None?;
    }
  }

  /** The case that fails: a note to oneself, still readable after its deletion. */
  lemma SelfConversationSurvivesDeletion()
    ensures var letter := Letter("u", "u", "note", []);
            var s := Step(Step(EMPTY, Send(None, letter, Readings(1, 1, 1, 2))), Delete(0, "u", 3));
            View(s, 0, "u") == Here([letter])
  {
    var letter := Letter("u", "u", "note", []);
    var e := Send(None, letter, Readings(1, 1, 1, 2));
    assert CreatesPair(EMPTY, e);
    var s := Step(EMPTY, e);
    var t := Step(s, Delete(0, "u", 3));
    var row := Participant("u", 1, 1, None);
    var ps := s.conversations[0].participants;
    assert ps == [row, row];
    assert FindRow(ps, "u", false) == Some(0);
    var qs := t.conversations[0].participants;
    assert qs[0].deletedAt.Some? && qs[1] == row;
    assert FindRow(qs, "u", false) == Some(1);
    LettersAfterSend([], Message(0, letter, 2, false), 0, 1);
    assert [] + [Message(0, letter, 2, false)] == t.messages;
  }
}
