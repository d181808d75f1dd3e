/** errorFormatter: a forest of validation errors flattened into one shared object of messages. */
module Validation {
  import opened Wrappers

  /**
   A node: its property, the texts of its constraints in property order (None when absent), and its children.
   */
  datatype ValidationError = ValidationError(
    property: string, constraints: Option<seq<string>>, children: seq<ValidationError>)

  const INVALID_VALUE := "Invalid value!"

  /** An empty parent path counts as none. */
  function Extend(parent: string, property: string): string {
    if parent != "" then parent + "." + property else property
  }

  predicate Descends(e: ValidationError) { e.constraints.None? && e.children != [] }

  function TextOf(texts: seq<string>): string { if texts != [] then texts[|texts| - 1] else INVALID_VALUE }

  /** A report: the properties from the root to the reporting node, and its text. */
  datatype Report = Report(path: seq<string>, text: string)

  /** The reports before the first node with neither constraints nor children, and whether there is no such node. */
  datatype Reports = Reports(list: seq<Report>, complete: bool)

  function Under(property: string, reports: seq<Report>): (r: seq<Report>)
    ensures |r| == |reports|
  {
    seq(|reports|, k requires 0 <= k < |reports| => Report([property] + reports[k].path, reports[k].text))
  }

  /** The reporting nodes of a forest, in order: the pure reading of the input. */
  function ReportsOf(errors: seq<ValidationError>): Reports
    decreases errors
  {
    if errors == [] then Reports([], true)
    else
      var first := ReportsOfNode(errors[0]);
      if !first.complete then first
      else
        var rest := ReportsOf(errors[1..]);
        Reports(first.list + rest.list, rest.complete)
  }

  function ReportsOfNode(e: ValidationError): Reports
    decreases e
  {
    if Descends(e) then
      var inner := ReportsOf(e.children);
      Reports(Under(e.property, inner.list), inner.complete)
    else if e.constraints.None? then Reports([], false)
    else Reports([Report([e.property], TextOf(e.constraints.value))], true)
  }

  /** A node with constraints reports the text of its last one, or the default text when it has none, under its name. */
  lemma ConstraintReported(property: string, texts: seq<string>, children: seq<ValidationError>)
    ensures var node := ReportsOfNode(ValidationError(property, Some(texts), children));
            && node.complete && |node.list| == 1 && node.list[0].path == [property]
            && (texts == [] ==> node.list[0].text == "Invalid value!")
            && (forall init, t :: texts == init + [t] ==> node.list[0].text == t)
  {}

  function WithDots(path: seq<string>): string { if path == [] then "" else "." + path[0] + WithDots(path[1..]) }

  /** The names of a path follow its parent, each after a dot; an empty parent and an empty first name leave no dot. */
  lemma DottedIs(parent: string, path: seq<string>)
    ensures parent != "" ==> Dotted(parent, path) == parent + WithDots(path)
    ensures parent == "" && path != [] && path[0] != "" ==> Dotted(parent, path) == path[0] + WithDots(path[1..])
    ensures parent == "" && path != [] && path[0] == "" ==> Dotted(parent, path) == Dotted("", path[1..])
  {
    if parent != "" {
      DottedBelow(parent, path);
    } else if path != [] && path[0] != "" {
      DottedBelow(path[0], path[1..]);
    }
  }

  lemma {:induction false} DottedBelow(parent: string, path: seq<string>)
    requires parent != ""
    ensures Dotted(parent, path) == parent + WithDots(path)
    decreases |path|
  {
    if path == [] {
      assert parent + "" == parent;
    } else {
      DottedBelow(parent + "." + path[0], path[1..]);
      assert parent + "." + path[0] + WithDots(path[1..]) == parent + ("." + path[0] + WithDots(path[1..]));
    }
  }

  /** Every node reached has constraints, or else children, all of whose nodes do. */
  predicate AllReport(errors: seq<ValidationError>)
    decreases errors
  {
    forall k :: 0 <= k < |errors| ==> Reportable(errors[k])
  }

  predicate Reportable(e: ValidationError)
    decreases e
  {
    e.constraints.Some? || (e.children != [] && AllReport(e.children))
  }

  /** Flattening completes exactly when every node it reaches has something to report. */
  lemma {:induction false} CompletesIff(errors: seq<ValidationError>)
    ensures ReportsOf(errors).complete <==> AllReport(errors)
    decreases errors
  {
    if errors != [] {
      if Descends(errors[0]) { CompletesIff(errors[0].children); }
      CompletesIff(errors[1..]);
      assert forall k :: 0 < k < |errors| ==> errors[k] == errors[1..][k - 1];
      if AllReport(errors) { assert Reportable(errors[0]); }
    }
  }

  /** A node with neither constraints nor children stops the flattening: later reports are lost, earlier ones kept. */
  lemma StopsAtBareNode(before: seq<ValidationError>, property: string, later: seq<ValidationError>)
    requires AllReport(before)
    ensures ReportsOf(before + [ValidationError(property, None, [])] + later) == Reports(ReportsOf(before).list, false)
  {
    var bare := ValidationError(property, None, []);
    CompletesIff(before);
    assert before + [bare] + later == before + ([bare] + later);
    assert ReportsOf([bare] + later) == Reports([], false);
    ReportsConcat(before, [bare] + later);
    assert ReportsOf(before).list + [] == ReportsOf(before).list;
  }

  /** The dotted path of a report below a parent path. */
  function Dotted(parent: string, path: seq<string>): string
    decreases |path|
  {
    if path == [] then parent else Dotted(Extend(parent, path[0]), path[1..])
  }

  /** Writing reports one after another: later ones win. */
  function Write(message: map<string, string>, parent: string, reports: seq<Report>): map<string, string> {
    if reports == [] then message
    else
      var r := reports[|reports| - 1];
      Write(message, parent, reports[..|reports| - 1])[Dotted(parent, r.path) := r.text]
  }

  predicate Names(parent: string, reports: seq<Report>, key: string) {
    exists k :: 0 <= k < |reports| && Dotted(parent, reports[k].path) == key
  }

  /** Keys no report names keep what they had, or stay absent. */
  lemma {:induction false} UnnamedKeysKept(
      message: map<string, string>, parent: string, reports: seq<Report>, key: string)
    requires !Names(parent, reports, key)
    ensures var m := Write(message, parent, reports);
            (key in m <==> key in message) && (key in m ==> m[key] == message[key])
  {
    if reports != [] {
      var last := |reports| - 1;
      forall k | 0 <= k < last ensures Dotted(parent, reports[..last][k].path) != key {
        assert Dotted(parent, reports[k].path) != key;
      }
      UnnamedKeysKept(message, parent, reports[..last], key);
      assert Dotted(parent, reports[last].path) != key;
    }
  }

  /** A named key holds the text of the last report that names it. */
  lemma {:induction false} LastReportWins(message: map<string, string>, parent: string, reports: seq<Report>, k: nat)
    requires k < |reports|
    requires forall j :: k < j < |reports| ==> Dotted(parent, reports[j].path) != Dotted(parent, reports[k].path)
    ensures var m, key := Write(message, parent, reports), Dotted(parent, reports[k].path);
            key in m && m[key] == reports[k].text
  {
    var last := |reports| - 1;
    if k < last {
      assert Dotted(parent, reports[last].path) != Dotted(parent, reports[k].path);
      LastReportWins(message, parent, reports[..last], k);
    }
  }

  lemma {:induction false} WriteConcat(message: map<string, string>, parent: string, a: seq<Report>, b: seq<Report>)
    ensures Write(message, parent, a + b) == Write(Write(message, parent, a), parent, b)
  {
    if b == [] {
      assert a + b == a;
    } else {
      assert (a + b)[..|a + b| - 1] == a + b[..|b| - 1];
      WriteConcat(message, parent, a, b[..|b| - 1]);
    }
  }

  lemma {:induction false} WriteUnder(
      message: map<string, string>, parent: string, property: string, reports: seq<Report>)
    ensures Write(message, parent, Under(property, reports)) == Write(message, Extend(parent, property), reports)
  {
    if reports != [] {
      var last := |reports| - 1;
      assert Under(property, reports)[..last] == Under(property, reports[..last]);
      WriteUnder(message, parent, property, reports[..last]);
      assert ([property] + reports[last].path)[1..] == reports[last].path;
    }
  }

  /** The object the recursion shares. */
  class Messages {
    var entries: map<string, string>
  }

  lemma ReportsSplit(errors: seq<ValidationError>, k: nat)
    requires k < |errors| && ReportsOf(errors[..k]).complete
    ensures var before, node := ReportsOf(errors[..k]), ReportsOfNode(errors[k]);
            && ReportsOf(errors[..k + 1]) == Reports(before.list + node.list, node.complete)
            && (!node.complete ==> ReportsOf(errors) == Reports(before.list + node.list, false))
  {
    assert errors[..k + 1] == errors[..k] + [errors[k]] && errors == errors[..k] + errors[k..];
    ReportsConcat(errors[..k], [errors[k]]);
    ReportsConcat(errors[..k], errors[k..]);
    assert [errors[k]][1..] == [];
    assert ReportsOf([]) == Reports([], true);
    assert ReportsOfNode(errors[k]).list + [] == ReportsOfNode(errors[k]).list;
  }

  lemma {:induction false} ReportsConcat(a: seq<ValidationError>, b: seq<ValidationError>)
    requires ReportsOf(a).complete
    ensures ReportsOf(a + b) == Reports(ReportsOf(a).list + ReportsOf(b).list, ReportsOf(b).complete)
    decreases |a|
  {
    if a == [] {
      assert a + b == b;
      assert [] + ReportsOf(b).list == ReportsOf(b).list;
    } else {
      ReportsConcat(a[1..], b);
      ReportsOfFirst(a);
      ReportsOfFirst(a + b);
      assert (a + b)[1..] == a[1..] + b;
      Regroup(ReportsOfNode(a[0]).list, ReportsOf(a[1..]).list, ReportsOf(b).list);
    }
  }

  lemma ReportsOfFirst(errors: seq<ValidationError>)
    requires errors != []
    ensures var first, rest := ReportsOfNode(errors[0]), ReportsOf(errors[1..]);
            ReportsOf(errors) == if first.complete then Reports(first.list + rest.list, rest.complete) else first
  {}

  lemma Regroup(a: seq<Report>, b: seq<Report>, c: seq<Report>)
    ensures (a + b) + c == a + (b + c)
  {}

  /** What one node does to the object. */
  function WriteNode(message: map<string, string>, parent: string, e: ValidationError): map<string, string> {
    if Descends(e) then Write(message, Extend(parent, e.property), ReportsOf(e.children).list)
    else if e.constraints.Some? then message[Extend(parent, e.property) := TextOf(e.constraints.value)]
    else message
  }

  lemma WriteOneMore(message: map<string, string>, parent: string, errors: seq<ValidationError>, k: nat)
    requires k < |errors| && ReportsOf(errors[..k]).complete
    ensures Write(message, parent, ReportsOf(errors[..k + 1]).list)
            == WriteNode(Write(message, parent, ReportsOf(errors[..k]).list), parent, errors[k])
    ensures ReportsOf(errors[..k + 1]).complete == ReportsOfNode(errors[k]).complete
    ensures !ReportsOfNode(errors[k]).complete ==> ReportsOf(errors) == ReportsOf(errors[..k + 1])
  {
    var e, before := errors[k], Write(message, parent, ReportsOf(errors[..k]).list);
    ReportsSplit(errors, k);
    WriteConcat(message, parent, ReportsOf(errors[..k]).list, ReportsOfNode(e).list);
    if Descends(e) {
      WriteUnder(before, parent, e.property, ReportsOf(e.children).list);
    } else if e.constraints.Some? {
      WriteOne(before, parent, e.property, TextOf(e.constraints.value));
    }
  }

  lemma WriteOne(message: map<string, string>, parent: string, property: string, text: string)
    ensures Write(message, parent, [Report([property], text)]) == message[Extend(parent, property) := text]
  {
    var reports := [Report([property], text)];
    assert reports[..0] == [] && [property][1..] == [];
    assert Dotted(parent, [property]) == Extend(parent, property);
  }

  /**
   Flattening through the shared object equals writing the pure list of reports over it. It stops, answering false,
   at the first node with neither constraints nor children, where the source throws a TypeError; it completes exactly
   when it reaches no such node.
   */
  method ErrorFormatter(errors: seq<ValidationError>, message: Messages, parentFields: string)
    returns (completed: bool)
    modifies message
    ensures message.entries == Write(old(message.entries), parentFields, ReportsOf(errors).list)
    ensures completed == ReportsOf(errors).complete
    ensures completed <==> AllReport(errors)
    decreases errors
  {
    CompletesIff(errors);
    var k := 0;
    assert errors[..0] == [];
    while k < |errors|
      invariant 0 <= k <= |errors|
      invariant ReportsOf(errors[..k]).complete
      invariant message.entries == Write(old(message.entries), parentFields, ReportsOf(errors[..k]).list)
    {
      var error := errors[k];
      var errorField := Extend(parentFields, error.property);
      WriteOneMore(old(message.entries), parentFields, errors, k);
      if Descends(error) {
        var done := ErrorFormatter(error.children, message, errorField);
        if !done {
          return false;
        }
      } else {
        if error.constraints.None? {
          return false;
        }
        message.entries := message.entries[errorField := TextOf(error.constraints.value)];
      }
      k := k + 1;
    }
    assert errors[..k] == errors;
    return true;
  }
}
