/** Terms and policies: every change of text freezes the old row and inserts the next version of its lineage. */
module Terms {
  import opened Wrappers

  datatype DisplayStatus = Display | Hidden | CannotDisplay
  type Editable = s: DisplayStatus | s != CannotDisplay witness Display

  /** A row; the version is in tenths, and rows sharing an order number are one lineage. */
  datatype Term = Term(
    order: int, version: int, title: string, content: string, isRequired: bool,
    languageId: string, termTypeId: string, displayStatus: DisplayStatus)

  datatype NewTerm = NewTerm(
    title: string, content: string, isRequired: bool, languageId: string, termTypeId: string, displayStatus: Editable)

  /** A partial update: an absent field is None. */
  datatype TermUpdate = TermUpdate(
    title: Option<string>, content: Option<string>, isRequired: Option<bool>,
    languageId: Option<string>, termTypeId: Option<string>, displayStatus: Editable)

  datatype Event = Save(term: NewTerm, referencesExist: bool) | Update(id: nat, change: TermUpdate)

  const FIRST_VERSION := 1

  /** MAX(term.order), with 0 for null. */
  function MaxOrder(rows: seq<Term>): (m: int)
    ensures forall i :: 0 <= i < |rows| ==> rows[i].order <= m
    ensures m == 0 || exists i :: 0 <= i < |rows| && rows[i].order == m
    ensures m >= 0
  {
    if rows == [] then 0
    else
      var m := MaxOrder(rows[..|rows| - 1]);
      if rows[|rows| - 1].order > m then rows[|rows| - 1].order else m
  }

  function Or<T>(o: Option<T>, t: T): T { if o.Some? then o.value else t }

  /** The fields of an update laid over a row. */
  function Merge(was: Term, change: TermUpdate, displayStatus: DisplayStatus): Term {
    was.(title := Or(change.title, was.title), content := Or(change.content, was.content),
          isRequired := Or(change.isRequired, was.isRequired), languageId := Or(change.languageId, was.languageId),
          termTypeId := Or(change.termTypeId, was.termTypeId), displayStatus := displayStatus)
  }

  /** The update names the same type, content and title; an absent one is a change. */
  predicate KeepsText(was: Term, change: TermUpdate) {
    change.termTypeId == Some(was.termTypeId) && change.content == Some(was.content) && change.title == Some(was.title)
  }

  function Saved(rows: seq<Term>, t: NewTerm): seq<Term> {
    rows + [Term(MaxOrder(rows) + 1, FIRST_VERSION, t.title, t.content, t.isRequired,
             t.languageId, t.termTypeId, t.displayStatus)]
  }

  function Updated(rows: seq<Term>, id: nat, change: TermUpdate): seq<Term>
    requires id < |rows|
  {
    var t := rows[id];
    if KeepsText(t, change) then rows[id := Merge(t, change, change.displayStatus)]
    else rows[id := t.(displayStatus := CannotDisplay)] + [Merge(t, change, Display).(version := t.version + 1)]
  }

  predicate IsEditable(t: Term) { t.displayStatus != CannotDisplay }

  function Step(rows: seq<Term>, e: Event): seq<Term> {
    match e
    case Save(term, referencesExist) => if referencesExist then Saved(rows, term) else rows
    case Update(id, change) => if id < |rows| && IsEditable(rows[id]) then Updated(rows, id, change) else rows
  }

  function Run(es: seq<Event>): seq<Term> {
    if es == [] then [] else Step(Run(es[..|es| - 1]), es[|es| - 1])
  }

  // ---------------------------------------------------------------- lineages

  function LineageSize(rows: seq<Term>, order: int): nat {
    if rows == [] then 0
    else LineageSize(rows[..|rows| - 1], order) + if rows[|rows| - 1].order == order then 1 else 0
  }

  predicate Newest(rows: seq<Term>, i: nat)
    requires i < |rows|
  {
    forall j :: i < j < |rows| ==> rows[j].order != rows[i].order
  }

  /** Versions count up by a tenth along each lineage, and a row is editable exactly when it is the newest. */
  predicate Versioned(rows: seq<Term>) {
    forall i :: 0 <= i < |rows| ==>
      && rows[i].version == LineageSize(rows[..i], rows[i].order) + 1
      && (IsEditable(rows[i]) <==> Newest(rows, i))
  }

  lemma {:induction false} SameOrdersSameSize(a: seq<Term>, b: seq<Term>, order: int)
    requires |a| == |b| && forall i :: 0 <= i < |a| ==> a[i].order == b[i].order
    ensures LineageSize(a, order) == LineageSize(b, order)
  {
    if a != [] { SameOrdersSameSize(a[..|a| - 1], b[..|b| - 1], order); }
  }

  lemma {:induction false} SizeUpToNewest(rows: seq<Term>, i: nat)
    requires i < |rows| && Newest(rows, i)
    ensures LineageSize(rows, rows[i].order) == LineageSize(rows[..i], rows[i].order) + 1
  {
    var last := |rows| - 1;
    if i < last {
      assert rows[..last][..i] == rows[..i];
      SizeUpToNewest(rows[..last], i);
    }
  }

  lemma {:induction false} UnusedOrder(rows: seq<Term>, order: int)
    requires forall i :: 0 <= i < |rows| ==> rows[i].order != order
    ensures LineageSize(rows, order) == 0
  {
    if rows != [] { UnusedOrder(rows[..|rows| - 1], order); }
  }

  /** Changing one row's status and text, but not its place, keeps versions. */
  lemma VersionsKept(rows: seq<Term>, next: seq<Term>)
    requires Versioned(rows) && |rows| <= |next|
    requires forall i :: 0 <= i < |rows| ==> next[i].order == rows[i].order && next[i].version == rows[i].version
    ensures forall i :: 0 <= i < |rows| ==> next[i].version == LineageSize(next[..i], next[i].order) + 1
  {
    forall i | 0 <= i < |rows|
      ensures next[i].version == LineageSize(next[..i], next[i].order) + 1
    {
      SameOrdersSameSize(rows[..i], next[..i], rows[i].order);
    }
  }

  lemma RewordingKeepsVersioned(rows: seq<Term>, id: nat, t: Term)
    requires Versioned(rows) && id < |rows| && IsEditable(rows[id])
    requires t.order == rows[id].order && t.version == rows[id].version && IsEditable(t)
    ensures Versioned(rows[id := t])
  {
    var next := rows[id := t];
    VersionsKept(rows, next);
    forall i | 0 <= i < |rows| ensures Newest(next, i) <==> Newest(rows, i) {}
  }

  lemma NewestAfterAppend(rows: seq<Term>, next: seq<Term>, id: nat, i: nat)
    requires id < |rows| && i < |rows| && Newest(rows, id)
    requires |next| == |rows| + 1 && next[|rows|].order == rows[id].order
    requires forall k :: 0 <= k < |rows| ==> next[k].order == rows[k].order
    ensures Newest(next, i) <==> Newest(rows, i) && i != id
  {
    if Newest(next, i) {
      assert next[|rows|].order != next[i].order;
      forall j | i < j < |rows| ensures rows[j].order != rows[i].order { assert next[j].order != next[i].order; }
    }
    if Newest(rows, i) && i != id {
      assert rows[i].order != rows[id].order;
      forall j | i < j < |next| ensures next[j].order != next[i].order {
        if j < |rows| { assert rows[j].order != rows[i].order; }
      }
    }
  }

  lemma NewVersionKeepsVersioned(rows: seq<Term>, id: nat, frozen: Term, newest: Term)
    requires Versioned(rows) && id < |rows| && IsEditable(rows[id])
    requires frozen.order == newest.order == rows[id].order && frozen.version == rows[id].version == newest.version - 1
    requires !IsEditable(frozen) && IsEditable(newest)
    ensures Versioned(rows[id := frozen] + [newest])
  {
    var next, n := rows[id := frozen] + [newest], |rows|;
    VersionsKept(rows, next);
    SizeUpToNewest(rows, id);
    SameOrdersSameSize(rows, next[..n], newest.order);
    NewVersionKeepsEditable(rows, id, frozen, newest);
  }

  lemma NewVersionKeepsEditable(rows: seq<Term>, id: nat, frozen: Term, newest: Term)
    requires id < |rows| && Newest(rows, id) && frozen.order == newest.order == rows[id].order
    requires forall i: nat :: i < |rows| ==> (IsEditable(rows[i]) <==> Newest(rows, i))
    requires !IsEditable(frozen) && IsEditable(newest)
    ensures var next := rows[id := frozen] + [newest];
            forall i: nat :: i < |next| ==> (IsEditable(next[i]) <==> Newest(next, i))
  {
    var next := rows[id := frozen] + [newest];
    forall i: nat | i < |rows|
      ensures IsEditable(next[i]) <==> Newest(next, i)
    {
      NewestAfterAppend(rows, next, id, i);
    }
  }

  lemma SaveKeepsVersioned(rows: seq<Term>, t: NewTerm)
    requires Versioned(rows)
    ensures Versioned(Saved(rows, t))
  {
    var next := Saved(rows, t);
    VersionsKept(rows, next);
    UnusedOrder(rows, MaxOrder(rows) + 1);
    assert next[..|rows|] == rows;
    forall i | 0 <= i < |rows| ensures Newest(next, i) <==> Newest(rows, i) {}
  }

  lemma {:induction false} RunIsVersioned(es: seq<Event>)
    ensures Versioned(Run(es))
  {
    if es != [] {
      var before := Run(es[..|es| - 1]);
      RunIsVersioned(es[..|es| - 1]);
      match es[|es| - 1]
      case Save(t, _) => SaveKeepsVersioned(before, t);
      case Update(id, change) => if id < |before| && IsEditable(before[id]) {
        var t := before[id];
        if KeepsText(t, change) {
          RewordingKeepsVersioned(before, id, Merge(t, change, change.displayStatus));
        } else {
          NewVersionKeepsVersioned(before, id, t.(displayStatus := CannotDisplay),
                                   Merge(t, change, Display).(version := t.version + 1));
        }
      }
    }
  }

  predicate SameText(a: Term, b: Term) { a.title == b.title && a.content == b.content && a.termTypeId == b.termTypeId }

  /** Frozen rows never change again; no row, frozen or not, changes its text, its lineage or its version. */
  lemma {:induction false} FrozenForever(es: seq<Event>, more: seq<Event>, i: nat)
    requires i < |Run(es)|
    ensures i < |Run(es + more)|
    ensures Run(es + more)[i].order == Run(es)[i].order && Run(es + more)[i].version == Run(es)[i].version
    ensures SameText(Run(es)[i], Run(es + more)[i])
    ensures !IsEditable(Run(es)[i]) ==> Run(es + more)[i] == Run(es)[i]
    decreases |more|
  {
    if more == [] {
      assert es + more == es;
    } else {
      assert (es + more)[..|es + more| - 1] == es + more[..|more| - 1];
      FrozenForever(es, more[..|more| - 1], i);
    }
  }

  // ---------------------------------------------------------------- the main results

  /** The newest row of a lineage: the one editable row, carrying the highest version. */
  lemma {:induction false} NewestOf(rows: seq<Term>, order: int) returns (i: nat)
    requires LineageSize(rows, order) > 0
    ensures i < |rows| && rows[i].order == order && Newest(rows, i)
  {
    var last := |rows| - 1;
    if rows[last].order == order {
      i := last;
    } else {
      i := NewestOf(rows[..last], order);
      forall j | i < j < |rows| ensures rows[j].order != rows[i].order {
        if j < last { assert rows[..last][j].order != rows[..last][i].order; }
      }
    }
  }

  /** In every reachable table each lineage has exactly one editable row, and it carries the highest version. */
  lemma OneEditablePerLineage(es: seq<Event>, order: int)
    requires LineageSize(Run(es), order) > 0
    ensures var rows := Run(es);
            exists i :: 0 <= i < |rows| && rows[i].order == order && IsEditable(rows[i])
                        && rows[i].version == LineageSize(rows, order)
                        && forall j :: 0 <= j < |rows| && rows[j].order == order && IsEditable(rows[j]) ==> j == i
  {
    var rows := Run(es);
    RunIsVersioned(es);
    var i := NewestOf(rows, order);
    SizeUpToNewest(rows, i);
    forall j | 0 <= j < |rows| && rows[j].order == order && IsEditable(rows[j]) ensures j == i {
      assert Newest(rows, j);
    }
  }

  lemma {:induction false} SizeIsMonotone(rows: seq<Term>, n: nat, order: int)
    requires n <= |rows|
    ensures LineageSize(rows[..n], order) <= LineageSize(rows, order)
  {
    if n < |rows| {
      assert rows[..|rows| - 1][..n] == rows[..n];
      SizeIsMonotone(rows[..|rows| - 1], n, order);
    } else {
      assert rows[..n] == rows;
    }
  }

  lemma {:induction false} RowOfVersion(rows: seq<Term>, order: int, version: int) returns (i: nat)
    requires 1 <= version <= LineageSize(rows, order)
    ensures i < |rows| && rows[i].order == order && LineageSize(rows[..i], order) + 1 == version
  {
    var last := |rows| - 1;
    if version <= LineageSize(rows[..last], order) {
      i := RowOfVersion(rows[..last], order, version);
      assert rows[..last][..i] == rows[..i];
    } else {
      i := last;
    }
  }

  lemma VersionWithinSize(rows: seq<Term>, i: nat)
    requires Versioned(rows) && i < |rows|
    ensures 1 <= rows[i].version <= LineageSize(rows, rows[i].order)
  {
    SizeIsMonotone(rows, i + 1, rows[i].order);
    assert rows[..i + 1][..i] == rows[..i];
  }

  /** The versions of a lineage are the consecutive tenths from 0.1 up to its size. */
  lemma VersionsAreConsecutive(es: seq<Event>, order: int, version: int)
    ensures (1 <= version <= LineageSize(Run(es), order))
            <==> exists i :: 0 <= i < |Run(es)| && Run(es)[i].order == order && Run(es)[i].version == version
  {
    var rows := Run(es);
    RunIsVersioned(es);
    if 1 <= version <= LineageSize(rows, order) {
      var i := RowOfVersion(rows, order, version);
      assert rows[i].version == version;
    }
    if i :| 0 <= i < |rows| && rows[i].order == order && rows[i].version == version {
      VersionWithinSize(rows, i);
    }
  }

  /** A version is never used twice in a lineage: versions grow along the table. */
  lemma VersionsGrow(es: seq<Event>, i: nat, j: nat)
    requires i < j < |Run(es)| && Run(es)[i].order == Run(es)[j].order
    ensures Run(es)[i].version < Run(es)[j].version
  {
    var rows := Run(es);
    RunIsVersioned(es);
    assert rows[..j][..i + 1] == rows[..i + 1] && rows[..i + 1][..i] == rows[..i];
    SizeIsMonotone(rows[..j], i + 1, rows[i].order);
  }

  /** The text and settings an update asks for, over those of the row it names. */
  predicate CarriesUpdate(t: Term, was: Term, change: TermUpdate) {
    && t.title == (match change.title case Some(title) => title case None => was.title)
    && t.content == (match change.content case Some(content) => content case None => was.content)
    && t.termTypeId == (match change.termTypeId case Some(termTypeId) => termTypeId case None => was.termTypeId)
    && t.languageId == (match change.languageId case Some(languageId) => languageId case None => was.languageId)
    && t.isRequired == (match change.isRequired case Some(isRequired) => isRequired case None => was.isRequired)
  }

  /**
   After an accepted update the one editable row of the lineage carries it; it is a new version, and shown, exactly
   when the update does not repeat the text.
   */
  lemma EditableRowCarriesUpdate(es: seq<Event>, id: nat, change: TermUpdate, i: nat)
    requires id < |Run(es)| && IsEditable(Run(es)[id])
    requires var next := Run(es + [Update(id, change)]);
             i < |next| && next[i].order == Run(es)[id].order && IsEditable(next[i])
    ensures var t, was := Run(es + [Update(id, change)])[i], Run(es)[id];
            && CarriesUpdate(t, was, change)
            && var repeated := change.title == Some(was.title) && change.content == Some(was.content)
                               && change.termTypeId == Some(was.termTypeId);
               && t.version == (if repeated then was.version else was.version + 1)
               && t.displayStatus == (if repeated then change.displayStatus else Display)
  {
    var rows, e := Run(es), Update(id, change);
    assert (es + [e])[..|es|] == es;
    var next := Run(es + [e]);
    assert next == Updated(rows, id, change);
    RunIsVersioned(es + [e]);
    var newest := if KeepsText(rows[id], change) then id else |rows|;
    assert IsEditable(next[newest]) && next[newest].order == next[i].order;
    assert Newest(next, newest) && Newest(next, i);
  }

  function CountSaves(es: seq<Event>): nat {
    if es == [] then 0
    else CountSaves(es[..|es| - 1]) + if es[|es| - 1].Save? && es[|es| - 1].referencesExist then 1 else 0
  }

  lemma {:induction false} OrdersWithin(a: seq<Term>, b: seq<Term>)
    requires forall i :: 0 <= i < |a| ==> exists j :: 0 <= j < |b| && b[j].order == a[i].order
    ensures MaxOrder(a) <= MaxOrder(b)
  {
    if MaxOrder(a) > 0 {
      var i :| 0 <= i < |a| && a[i].order == MaxOrder(a);
      var j :| 0 <= j < |b| && b[j].order == a[i].order;
    }
  }

  lemma {:induction false} UpdateKeepsOrders(rows: seq<Term>, id: nat, change: TermUpdate)
    requires id < |rows|
    ensures MaxOrder(Updated(rows, id, change)) == MaxOrder(rows)
  {
    var next := Updated(rows, id, change);
    assert forall i :: 0 <= i < |rows| ==> next[i].order == rows[i].order;
    assert forall i :: |rows| <= i < |next| ==> next[i].order == rows[id].order;
    OrdersWithin(rows, next);
    OrdersWithin(next, rows);
  }

  /** Order numbers count the lineages: the greatest is the number of terms saved so far. */
  lemma {:induction false} OrdersCountSaves(es: seq<Event>)
    ensures MaxOrder(Run(es)) == CountSaves(es)
  {
    if es != [] {
      var before := Run(es[..|es| - 1]);
      OrdersCountSaves(es[..|es| - 1]);
      match es[|es| - 1]
      case Save(t, referencesExist) => if referencesExist { assert Saved(before, t)[..|before|] == before; }
      case Update(id, change) => if id < |before| && IsEditable(before[id]) { UpdateKeepsOrders(before, id, change); }
    }
  }

  /** A saved term is shown or hidden as asked, carries its own text, and is version 0.1 of the next lineage. */
  lemma SavedTermIs(es: seq<Event>, t: NewTerm)
    ensures var rows, next := Run(es), Run(es + [Save(t, true)]);
            next == rows + [Term(CountSaves(es) + 1, 1, t.title, t.content, t.isRequired, t.languageId, t.termTypeId,
                                 t.displayStatus)]
  {
    assert (es + [Save(t, true)])[..|es|] == es;
    OrdersCountSaves(es);
  }

  // ---------------------------------------------------------------- the service

  /** updateTerm answers a bare success for a rewritten row, and the new row for a new version. */
  datatype Answer = Mutated | Created(term: Term)

  class TermPolicyService {
    var rows: seq<Term>

    method SaveTerm(term: NewTerm, referencesExist: bool) returns (r: Result<Term>)
      modifies this
      ensures rows == Step(old(rows), Save(term, referencesExist))
      ensures referencesExist ==>
                rows == old(rows) + [Term(MaxOrder(old(rows)) + 1, 1, term.title, term.content, term.isRequired,
                                          term.languageId, term.termTypeId, term.displayStatus)]
      ensures if referencesExist
              then r == Ok(rows[|rows| - 1]) && r.value.order > MaxOrder(old(rows)) else r == Err(BadRequest)
    {
      if !referencesExist {
        return Err(BadRequest);
      }
      var order := MaxOrder(rows) + 1;
      var saved := Term(order, FIRST_VERSION, term.title, term.content, term.isRequired,
                        term.languageId, term.termTypeId, term.displayStatus);
      rows := rows + [saved];
      return Ok(saved);
    }

    method UpdateTerm(id: nat, term: TermUpdate) returns (r: Result<Answer>)
      modifies this
      ensures rows == Step(old(rows), Update(id, term))
      ensures r == if id >= |old(rows)| then Err(NotFound)
                   else if old(rows)[id].displayStatus == CannotDisplay then Err(CannotUpdate)
                   else if KeepsText(old(rows)[id], term) then Ok(Mutated)
                   else Ok(Created(rows[|rows| - 1]))
    {
      if id >= |rows| {
        return Err(NotFound);
      }
      var oldTerm := rows[id];
      if oldTerm.displayStatus == CannotDisplay {
        return Err(CannotUpdate);
      }
      if KeepsText(oldTerm, term) {
        oldTerm := Merge(oldTerm, term, term.displayStatus);
        rows := rows[id := oldTerm];
        return Ok(Mutated);
      }
      oldTerm := oldTerm.(displayStatus := CannotDisplay);
      rows := rows[id := oldTerm];
      oldTerm := oldTerm.(version := oldTerm.version + 1);
      var newTerm := Merge(oldTerm, term, Display);
      rows := rows + [newTerm];
      return Ok(Created(newTerm));
    }
  }
}
