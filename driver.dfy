/** The entry loop of `main`: every entry of the document goes through the
    three reducers in a fixed order; in detect mode the loop ends at the first
    entry that any of them changed, otherwise the changes are collected and
    the file is written when there was one. */
module Driver {
  import opened Base
  import opened Etree
  import opened Senses
  import opened Quotes
  import opened EmptyNodes
  import opened Verbatim
  import opened Text

  /** `tei_iter(tree.root, 'entry')`: the root and its descendants tagged
      `entry`, in document order. */
  function Entries(nodes: seq<Node>, root: NodeId): (r: seq<NodeId>)
    requires WellFormed(nodes) && root < |nodes|
    ensures forall k :: 0 <= k < |r| ==> r[k] < |nodes|
    ensures forall y :: y in r <==> y in Iter(nodes, root) && nodes[y].tag == EntryTag
  {
    Tagged(nodes, Iter(nodes, root), EntryTag)
  }

  /** One turn of the loop body before the checks: `rm_doubled_senses`,
      `rm_doubled_quotes` under the skip rule `rule` and `rm_empty_nodes` on
      `entry`, and whether any of them returned a truthy value; an exception
      of either of the last two ends the turn. */
  function Reduce(rule: Rule, nodes: seq<Node>, entry: NodeId): (r: Result<(bool, seq<Node>)>)
    requires WellFormed(nodes) && entry < |nodes|
    ensures r.Ok? ==> WellFormed(r.value.1) && |r.value.1| == |nodes|
  {
    var (c1, n1) := SensesResult(nodes, entry);
    QuotesWellFormed(rule, n1, entry);
    match QuotesResult(rule, n1, entry)
    case Err(e) => Err(e)
    case Ok((c2, n2)) =>
      match EmptyNodesResult(n2, entry)
      case Err(e) => Err(e)
      case Ok((c3, n3)) => Ok((Truthy(c1) || Truthy(c2) || c3, n3))
  }

  /** The body of the loop for one entry, as a function of the tree. */
  type Step = (seq<Node>, NodeId) --> Result<(bool, seq<Node>)>

  /** `step` may run on every well-formed tree and entry, and what it leaves
      is a well-formed tree over the same nodes. */
  ghost predicate Keeps(step: Step)
  {
    forall nodes: seq<Node>, entry: NodeId | WellFormed(nodes) && entry < |nodes| ::
      step.requires(nodes, entry) &&
      (step(nodes, entry).Ok? ==> WellFormed(step(nodes, entry).value.1) && |step(nodes, entry).value.1| == |nodes|)
  }

  /** `Reduce` under `rule`, as a step. */
  function ReduceBy(rule: Rule): Step
  {
    (nodes: seq<Node>, entry: NodeId) requires WellFormed(nodes) && entry < |nodes| => Reduce(rule, nodes, entry)
  }

  /** `Reduce` is such a step under either rule. */
  lemma ReduceKeeps(rule: Rule)
    ensures Keeps(ReduceBy(rule))
  {
  }

  /** Every id in `entries` names an element of `nodes`. */
  predicate InRange(entries: seq<NodeId>, nodes: seq<Node>)
  {
    forall k :: 0 <= k < |entries| ==> entries[k] < |nodes|
  }

  /** How the loop ends when nothing raises: status 42 in detect mode, or
      with the accumulated `changed`. */
  datatype Outcome = Detected | Finished(changed: bool)

  /** The loop from the `i`-th entry on, with `changed` collected so far. */
  function Loop(step: Step, detect: bool, nodes: seq<Node>, entries: seq<NodeId>, i: nat, changed: bool): Result<(Outcome, seq<Node>)>
    requires Keeps(step) && WellFormed(nodes) && i <= |entries| && InRange(entries, nodes)
    decreases |entries| - i
  {
    if i == |entries| then Ok((Finished(changed), nodes))
    else
      match step(nodes, entries[i])
      case Err(e) => Err(e)
      case Ok((any, n)) =>
        if detect && any then Ok((Detected, n))
        else Loop(step, detect, n, entries, i + 1, changed || any)
  }

  /** Unfolds `Loop` by one entry, for the loop invariant of `RunLoop`. */
  lemma LoopTurn(step: Step, detect: bool, nodes: seq<Node>, entries: seq<NodeId>, i: nat, changed: bool)
    requires Keeps(step) && WellFormed(nodes) && i < |entries| && InRange(entries, nodes)
    ensures var r := step(nodes, entries[i]);
            (r.Err? ==> Loop(step, detect, nodes, entries, i, changed) == Err(r.error)) &&
            (r.Ok? && detect && r.value.0 ==> Loop(step, detect, nodes, entries, i, changed) == Ok((Detected, r.value.1))) &&
            (r.Ok? && !(detect && r.value.0) ==>
               InRange(entries, r.value.1) &&
               Loop(step, detect, nodes, entries, i, changed) == Loop(step, detect, r.value.1, entries, i + 1, changed || r.value.0))
  {
  }

  /** The first `k` entries, each through all three reducers, with no early
      exit: whether any of them was changed, and the tree they leave. */
  function Upto(step: Step, nodes: seq<Node>, entries: seq<NodeId>, k: nat): (r: Result<(bool, seq<Node>)>)
    requires Keeps(step) && WellFormed(nodes) && k <= |entries| && InRange(entries, nodes)
    ensures r.Ok? ==> WellFormed(r.value.1) && |r.value.1| == |nodes|
  {
    if k == 0 then Ok((false, nodes))
    else
      match Upto(step, nodes, entries, k - 1)
      case Err(e) => Err(e)
      case Ok((c, n)) =>
        match step(n, entries[k - 1])
        case Err(e) => Err(e)
        case Ok((any, n')) => Ok((c || any, n'))
  }

  /** An exception ends the run: no later entry is processed. */
  lemma {:induction false} UptoErr(step: Step, nodes: seq<Node>, entries: seq<NodeId>, k: nat, m: nat)
    requires Keeps(step) && WellFormed(nodes) && k <= m <= |entries| && InRange(entries, nodes)
    requires Upto(step, nodes, entries, k).Err?
    ensures Upto(step, nodes, entries, m) == Upto(step, nodes, entries, k)
    decreases m
  {
    if k < m {
      UptoErr(step, nodes, entries, k, m - 1);
    }
  }

  /** Once an entry has been changed, the collected flag stays set. */
  lemma {:induction false} UptoFlag(step: Step, nodes: seq<Node>, entries: seq<NodeId>, k: nat, m: nat)
    requires Keeps(step) && WellFormed(nodes) && k <= m <= |entries| && InRange(entries, nodes)
    requires Upto(step, nodes, entries, k).Ok? && Upto(step, nodes, entries, k).value.0 && Upto(step, nodes, entries, m).Ok?
    ensures Upto(step, nodes, entries, m).value.0
    decreases m
  {
    if k < m {
      UptoFlag(step, nodes, entries, k, m - 1);
    }
  }

  /** Without detect mode the loop processes every entry and ends with the
      flag of any of them, from the `i`-th entry on. */
  lemma {:induction false} NormalFrom(step: Step, nodes: seq<Node>, entries: seq<NodeId>, i: nat, c: bool, n: seq<Node>)
    requires Keeps(step) && WellFormed(nodes) && i <= |entries| && InRange(entries, nodes)
    requires Upto(step, nodes, entries, i) == Ok((c, n))
    ensures WellFormed(n) && InRange(entries, n)
    ensures Loop(step, false, n, entries, i, c) ==
            match Upto(step, nodes, entries, |entries|)
            case Err(e) => Err(e)
            case Ok((c', n')) => Ok((Finished(c'), n'))
    decreases |entries| - i
  {
    if i < |entries| {
      match step(n, entries[i])
      case Err(e) =>
        UptoErr(step, nodes, entries, i + 1, |entries|);
      case Ok((any, n')) =>
        NormalFrom(step, nodes, entries, i + 1, c || any, n');
    }
  }

  /** Without detect mode `changed` ends as the OR of the flags of all
      entries, and the tree is the one all of them leave. */
  lemma NormalRun(step: Step, nodes: seq<Node>, entries: seq<NodeId>)
    requires Keeps(step) && WellFormed(nodes) && InRange(entries, nodes)
    ensures Loop(step, false, nodes, entries, 0, false) ==
            match Upto(step, nodes, entries, |entries|)
            case Err(e) => Err(e)
            case Ok((c, n)) => Ok((Finished(c), n))
  {
    NormalFrom(step, nodes, entries, 0, false, nodes);
  }

  /** In detect mode, from the `i`-th entry on: when the `k`-th entry is the
      first one changed, the loop stops right after running the reducers on
      it. */
  lemma {:induction false} DetectFrom(step: Step, nodes: seq<Node>, entries: seq<NodeId>, i: nat, n: seq<Node>, k: nat, m: seq<Node>, n': seq<Node>)
    requires Keeps(step) && WellFormed(nodes) && i <= k < |entries| && InRange(entries, nodes)
    requires Upto(step, nodes, entries, i) == Ok((false, n))
    requires Upto(step, nodes, entries, k) == Ok((false, m)) && Upto(step, nodes, entries, k + 1) == Ok((true, n'))
    ensures WellFormed(n) && InRange(entries, n)
    ensures Loop(step, true, n, entries, i, false) == Ok((Detected, n'))
    decreases k - i
  {
    match step(n, entries[i])
    case Err(e) =>
      UptoErr(step, nodes, entries, i + 1, k);
    case Ok((any, n1)) =>
      if any {
        if i < k {
          UptoFlag(step, nodes, entries, i + 1, k);
        }
      } else {
        DetectFrom(step, nodes, entries, i + 1, n1, k, m, n');
      }
  }

  /** In detect mode the loop exits with status 42 at the first entry any
      reducer changed, and that entry has been changed already. */
  lemma DetectStops(step: Step, nodes: seq<Node>, entries: seq<NodeId>, k: nat, m: seq<Node>, n': seq<Node>)
    requires Keeps(step) && WellFormed(nodes) && k < |entries| && InRange(entries, nodes)
    requires Upto(step, nodes, entries, k) == Ok((false, m)) && Upto(step, nodes, entries, k + 1) == Ok((true, n'))
    ensures Loop(step, true, nodes, entries, 0, false) == Ok((Detected, n'))
  {
    DetectFrom(step, nodes, entries, 0, nodes, k, m, n');
  }

  /** In detect mode, from the `i`-th entry on: when no entry is changed the
      loop runs to the end. */
  lemma {:induction false} QuietFrom(step: Step, nodes: seq<Node>, entries: seq<NodeId>, i: nat, n: seq<Node>, n': seq<Node>)
    requires Keeps(step) && WellFormed(nodes) && i <= |entries| && InRange(entries, nodes)
    requires Upto(step, nodes, entries, i) == Ok((false, n)) && Upto(step, nodes, entries, |entries|) == Ok((false, n'))
    ensures WellFormed(n) && InRange(entries, n)
    ensures Loop(step, true, n, entries, i, false) == Ok((Finished(false), n'))
    decreases |entries| - i
  {
    if i < |entries| {
      var r := step(n, entries[i]);
      if r.Err? {
        UptoErr(step, nodes, entries, i + 1, |entries|);
      } else if r.value.0 {
        UptoFlag(step, nodes, entries, i + 1, |entries|);
      } else {
        QuietFrom(step, nodes, entries, i + 1, r.value.1, n');
      }
    }
  }

  /** In detect mode, when no entry is changed, the run ends as the normal
      one does: nothing changed, the same tree. */
  lemma DetectQuiet(step: Step, nodes: seq<Node>, entries: seq<NodeId>, n': seq<Node>)
    requires Keeps(step) && WellFormed(nodes) && InRange(entries, nodes)
    requires Upto(step, nodes, entries, |entries|) == Ok((false, n'))
    ensures Loop(step, true, nodes, entries, 0, false) == Ok((Finished(false), n'))
    ensures Loop(step, false, nodes, entries, 0, false) == Ok((Finished(false), n'))
  {
    QuietFrom(step, nodes, entries, 0, nodes, n');
    NormalRun(step, nodes, entries);
  }

  /** In detect mode, from the `i`-th entry on: when the `k`-th entry raises
      before any entry has been changed, the exception ends the loop. */
  lemma {:induction false} DetectErrFrom(step: Step, nodes: seq<Node>, entries: seq<NodeId>, i: nat, n: seq<Node>, k: nat, m: seq<Node>)
    requires Keeps(step) && WellFormed(nodes) && i <= k < |entries| && InRange(entries, nodes)
    requires Upto(step, nodes, entries, i) == Ok((false, n))
    requires Upto(step, nodes, entries, k) == Ok((false, m)) && Upto(step, nodes, entries, k + 1).Err?
    ensures WellFormed(n) && InRange(entries, n)
    ensures Loop(step, true, n, entries, i, false) == Err(Upto(step, nodes, entries, k + 1).error)
    decreases k - i
  {
    match step(n, entries[i])
    case Err(e) =>
      if i < k {
        UptoErr(step, nodes, entries, i + 1, k);
      }
    case Ok((any, n1)) =>
      if any {
        if i < k {
          UptoFlag(step, nodes, entries, i + 1, k);
        }
      } else {
        DetectErrFrom(step, nodes, entries, i + 1, n1, k, m);
      }
  }

  /** In detect mode an exception raised before any entry has been changed
      escapes the loop: the run ends with that exception, not with status 42. */
  lemma DetectErr(step: Step, nodes: seq<Node>, entries: seq<NodeId>, k: nat, m: seq<Node>)
    requires Keeps(step) && WellFormed(nodes) && k < |entries| && InRange(entries, nodes)
    requires Upto(step, nodes, entries, k) == Ok((false, m)) && Upto(step, nodes, entries, k + 1).Err?
    ensures Loop(step, true, nodes, entries, 0, false) == Err(Upto(step, nodes, entries, k + 1).error)
  {
    DetectErrFrom(step, nodes, entries, 0, nodes, k, m);
  }

  /** How `main` ends after the document has been split and parsed. */
  datatype Status =
    | Raised(error: Exception)  // an exception escapes
    | Exit42                    // detect mode found a change
    | NothingChanged            // "Nothing changed, no action taken."
    | Wrote(file: string)       // the text written by `XmlParserWrapper.write`

  /** How `main` ends once the loop has returned `r`: the pieces `p` of the
      file are put back around `serialise` of the tree the loop left, where
      `serialise` stands for `ElementTree.write` of the root. */
  function Conclude(r: Result<(Outcome, seq<Node>)>, p: Pieces, serialise: seq<Node> -> string): Status
  {
    match r
    case Err(e) => Raised(e)
    case Ok((Detected, _)) => Exit42
    case Ok((Finished(changed), after)) =>
      if changed then Wrote(Assemble(p, serialise(after))) else NothingChanged
  }

  /** The end of `main` for the pieces `p` of the file and the parsed tree
      `nodes` with its root. */
  function MainResult(rule: Rule, detect: bool, p: Pieces, nodes: seq<Node>, root: NodeId, serialise: seq<Node> -> string): Status
    requires WellFormed(nodes) && root < |nodes|
  {
    ReduceKeeps(rule);
    Conclude(Loop(ReduceBy(rule), detect, nodes, Entries(nodes, root), 0, false), p, serialise)
  }

  /** The file is written exactly when the loop ends normally with `changed`
      set; it then starts with the text before the root, holds the text
      after the root right after the serialised tree, and ends with a
      newline. */
  lemma WrittenIffChanged(r: Result<(Outcome, seq<Node>)>, p: Pieces, serialise: seq<Node> -> string)
    ensures Conclude(r, p, serialise).Wrote? <==> r.Ok? && r.value.0 == Finished(true)
    ensures Conclude(r, p, serialise).Exit42? <==> r.Ok? && r.value.0 == Detected
    ensures r.Ok? && r.value.0 == Finished(true) ==>
            var out, b := Conclude(r, p, serialise).file, |p.beforeRoot|;
            var a := b + |serialise(r.value.1)|;
            |out| == a + |p.afterRoot| + (if EndsWith(p.afterRoot, "\n") then 0 else 1) &&
            out[..b] == p.beforeRoot && out[b..a] == serialise(r.value.1) && out[a..a + |p.afterRoot|] == p.afterRoot &&
            EndsWith(out, "\n")
  {
    if r.Ok? && r.value.0 == Finished(true) {
      AssembleVerbatim(p, serialise(r.value.1));
    }
  }

  /** The body of `for entry in ...`: the three reducers in order, then the
      flags; `any` says whether one of them returned a truthy value. */
  method ReduceEntry(t: Tree, rule: Rule, entry: NodeId) returns (r: Result<bool>)
    requires t.Valid() && entry < |t.nodes|
    modifies t
    ensures r.Ok? ==> t.Valid() && Reduce(rule, old(t.nodes), entry) == Ok((r.value, t.nodes))
    ensures r.Err? ==> Reduce(rule, old(t.nodes), entry) == Err(r.error)
  {
    var changed1 := RemoveDoubledSenses(t, entry);
    var changed2 := RemoveDoubledQuotes(t, entry, rule);
    if changed2.Err? {
      return Err(changed2.error);
    }
    var changed3 := RemoveEmptyNodes(t, entry);
    match changed3
    case Err(e) =>
      return Err(e);
    case Ok(c3) =>
      return Ok(Truthy(changed1) || Truthy(changed2.value) || c3);
  }

  /** The loop of `main` over `entries`, on the parsed tree `t` in place: how
      it ends, with the tree it leaves. */
  method RunLoop(rule: Rule, detect: bool, t: Tree, entries: seq<NodeId>) returns (r: Result<(Outcome, seq<Node>)>)
    requires t.Valid() && InRange(entries, t.nodes)
    modifies t
    ensures Keeps(ReduceBy(rule)) && r == Loop(ReduceBy(rule), detect, old(t.nodes), entries, 0, false)
    ensures r.Ok? ==> r.value.1 == t.nodes
  {
    ReduceKeeps(rule);
    var changed := false;
    for i := 0 to |entries|
      invariant t.Valid() && InRange(entries, t.nodes)
      invariant Loop(ReduceBy(rule), detect, old(t.nodes), entries, 0, false) == Loop(ReduceBy(rule), detect, t.nodes, entries, i, changed)
    {
      LoopTurn(ReduceBy(rule), detect, t.nodes, entries, i, changed);
      var any := ReduceEntry(t, rule, entries[i]);
      match any
      case Err(e) =>
        return Err(e);
      case Ok(a) =>
        if detect && a {
          return Ok((Detected, t.nodes));
        }
        changed := changed || a;
    }
    return Ok((Finished(changed), t.nodes));
  }

  /** `main` from the entry loop on, on the parsed tree `t` in place. */
  method Deduplicate(rule: Rule, detect: bool, p: Pieces, t: Tree, root: NodeId, serialise: seq<Node> -> string) returns (s: Status)
    requires t.Valid() && root < |t.nodes|
    modifies t
    ensures s == MainResult(rule, detect, p, old(t.nodes), root, serialise)
  {
    var entries := Entries(t.nodes, root);
    var r := RunLoop(rule, detect, t, entries);
    match r
    case Err(e) =>
      return Raised(e);
    case Ok((Detected, _)) =>
      return Exit42;
    case Ok((Finished(changed), _)) =>
      if changed {
        return Wrote(Assemble(p, serialise(t.nodes)));
      }
      return NothingChanged;
  }
}
