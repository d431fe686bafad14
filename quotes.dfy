/** `rm_doubled_quotes`: among the quotes of all `cit` elements of all senses
    of an entry, remove every quote whose text equals that of an earlier one. */
module Quotes {
  import opened Base
  import opened Combinations
  import opened Dups
  import opened Etree

  /** `[(cit, q) for cit in cits for q in findall(cit, 'quote')]`. */
  function QuotesOfCits(nodes: seq<Node>, cs: seq<NodeId>): (r: seq<(NodeId, NodeId)>)
    requires WellFormed(nodes) && forall k :: 0 <= k < |cs| ==> cs[k] < |nodes|
    ensures forall k :: 0 <= k < |r| ==>
              r[k].0 in cs && r[k].0 < r[k].1 < |nodes| && r[k].1 in nodes[r[k].0].children
  {
    if cs == [] then []
    else
      var qs := FindAll(nodes, cs[0], QuoteTag);
      seq(|qs|, k requires 0 <= k < |qs| => (cs[0], qs[k])) + QuotesOfCits(nodes, cs[1..])
  }

  lemma {:induction false} QuotesOfCitsDistinct(nodes: seq<Node>, cs: seq<NodeId>)
    requires WellFormed(nodes) && NoDup(cs) && forall k :: 0 <= k < |cs| ==> cs[k] < |nodes|
    ensures DistinctQuotes(QuotesOfCits(nodes, cs))
  {
    if cs != [] {
      var qs := FindAll(nodes, cs[0], QuoteTag);
      var block := seq(|qs|, k requires 0 <= k < |qs| => (cs[0], qs[k]));
      var rest := QuotesOfCits(nodes, cs[1..]);
      QuotesOfCitsDistinct(nodes, cs[1..]);
      forall a, b | 0 <= a < |block| && 0 <= b < |rest|
        ensures block[a].1 != rest[b].1
      {
        assert rest[b].0 in cs[1..] && cs[0] !in cs[1..];
      }
      assert DistinctQuotes(block);
      DistinctConcat(block, rest);
    }
  }

  /** `[(cit, q) for s in senses for cit in findall(s, 'cit') for q in findall(cit, 'quote')]`. */
  function QuotesOfSenses(nodes: seq<Node>, ss: seq<NodeId>): (r: seq<(NodeId, NodeId)>)
    requires WellFormed(nodes) && forall k :: 0 <= k < |ss| ==> ss[k] < |nodes|
    ensures forall k :: 0 <= k < |r| ==> r[k].0 < r[k].1 < |nodes| && r[k].1 in nodes[r[k].0].children
  {
    if ss == [] then [] else QuotesOfCits(nodes, FindAll(nodes, ss[0], CitTag)) + QuotesOfSenses(nodes, ss[1..])
  }

  /** Each compared quote sits in a `cit` that is a child of one of the senses. */
  lemma {:induction false} QuotesOfSensesParents(nodes: seq<Node>, ss: seq<NodeId>, k: nat)
    requires WellFormed(nodes) && forall k :: 0 <= k < |ss| ==> ss[k] < |nodes|
    requires k < |QuotesOfSenses(nodes, ss)|
    ensures exists m :: 0 <= m < |ss| && QuotesOfSenses(nodes, ss)[k].0 in nodes[ss[m]].children
  {
    var block := QuotesOfCits(nodes, FindAll(nodes, ss[0], CitTag));
    if k >= |block| {
      QuotesOfSensesParents(nodes, ss[1..], k - |block|);
      var m :| 0 <= m < |ss[1..]| && QuotesOfSenses(nodes, ss[1..])[k - |block|].0 in nodes[ss[1..][m]].children;
      assert ss[1..][m] == ss[m + 1];
    }
  }

  /** A quote under a `cit` of sense `s` is not compared as a quote of the other senses `ss`. */
  lemma OtherSensesApart(nodes: seq<Node>, s: NodeId, ss: seq<NodeId>, c: NodeId, q: NodeId, b: nat)
    requires WellFormed(nodes) && s < |nodes| && s !in ss && forall k :: 0 <= k < |ss| ==> ss[k] < |nodes|
    requires c < |nodes| && c in nodes[s].children && q in nodes[c].children
    requires b < |QuotesOfSenses(nodes, ss)|
    ensures QuotesOfSenses(nodes, ss)[b].1 != q
  {
    var c' := QuotesOfSenses(nodes, ss)[b].0;
    QuotesOfSensesParents(nodes, ss, b);
    var m :| 0 <= m < |ss| && c' in nodes[ss[m]].children;
    assert ss[m] != s;
  }

  /** No quote is compared as two different translations. */
  lemma {:induction false} QuotesOfSensesDistinct(nodes: seq<Node>, ss: seq<NodeId>)
    requires WellFormed(nodes) && NoDup(ss) && forall k :: 0 <= k < |ss| ==> ss[k] < |nodes|
    ensures DistinctQuotes(QuotesOfSenses(nodes, ss))
  {
    if ss != [] {
      var block := QuotesOfCits(nodes, FindAll(nodes, ss[0], CitTag));
      var rest := QuotesOfSenses(nodes, ss[1..]);
      QuotesOfSensesDistinct(nodes, ss[1..]);
      QuotesOfCitsDistinct(nodes, FindAll(nodes, ss[0], CitTag));
      forall a, b | 0 <= a < |block| && 0 <= b < |rest|
        ensures block[a].1 != rest[b].1
      {
        assert block[a].0 in nodes[ss[0]].children;
        OtherSensesApart(nodes, ss[0], ss[1..], block[a].0, block[a].1, b);
      }
      DistinctConcat(block, rest);
    }
  }

  /** No quote occurs twice among `r`. */
  predicate DistinctQuotes(r: seq<(NodeId, NodeId)>)
  {
    forall a, b :: 0 <= a < b < |r| ==> r[a].1 != r[b].1
  }

  lemma DistinctConcat(x: seq<(NodeId, NodeId)>, y: seq<(NodeId, NodeId)>)
    requires DistinctQuotes(x) && DistinctQuotes(y)
    requires forall a, b :: 0 <= a < |x| && 0 <= b < |y| ==> x[a].1 != y[b].1
    ensures DistinctQuotes(x + y)
  {
    var r := x + y;
    forall a, b | 0 <= a < b < |r|
      ensures r[a].1 != r[b].1
    {
      if b < |x| {
        assert r[a] == x[a] && r[b] == x[b];
      } else if a >= |x| {
        assert r[a] == y[a - |x|] && r[b] == y[b - |x|];
      } else {
        assert r[a] == x[a] && r[b] == y[b - |x|];
      }
    }
  }

  /** The `(cit, quote)` pairs the reducer compares, in document order. */
  function Translations(nodes: seq<Node>, entry: NodeId): seq<(NodeId, NodeId)>
    requires WellFormed(nodes) && entry < |nodes|
  {
    QuotesOfSenses(nodes, FindAll(nodes, entry, SenseTag))
  }

  lemma {:induction false} QuotesOfCitsMember(nodes: seq<Node>, cs: seq<NodeId>, c: NodeId, q: NodeId)
    requires WellFormed(nodes) && NoDup(cs) && forall k :: 0 <= k < |cs| ==> cs[k] < |nodes|
    ensures (c, q) in QuotesOfCits(nodes, cs) <==> c in cs && q in FindAll(nodes, c, QuoteTag)
  {
    if cs != [] {
      QuotesOfCitsMember(nodes, cs[1..], c, q);
      var qs := FindAll(nodes, cs[0], QuoteTag);
      var block := seq(|qs|, k requires 0 <= k < |qs| => (cs[0], qs[k]));
      assert QuotesOfCits(nodes, cs) == block + QuotesOfCits(nodes, cs[1..]);
      if c == cs[0] && q in qs {
        var k :| 0 <= k < |qs| && qs[k] == q;
        assert block[k] == (c, q);
      }
    }
  }

  lemma {:induction false} QuotesOfSensesMember(nodes: seq<Node>, ss: seq<NodeId>, c: NodeId, q: NodeId)
    requires WellFormed(nodes) && NoDup(ss) && forall k :: 0 <= k < |ss| ==> ss[k] < |nodes|
    ensures (c, q) in QuotesOfSenses(nodes, ss) <==>
            exists s :: s in ss && c in FindAll(nodes, s, CitTag) && q in FindAll(nodes, c, QuoteTag)
  {
    if ss != [] {
      QuotesOfSensesMember(nodes, ss[1..], c, q);
      QuotesOfCitsMember(nodes, FindAll(nodes, ss[0], CitTag), c, q);
      assert QuotesOfSenses(nodes, ss) ==
             QuotesOfCits(nodes, FindAll(nodes, ss[0], CitTag)) + QuotesOfSenses(nodes, ss[1..]);
      assert forall s :: s in ss <==> s == ss[0] || s in ss[1..];
    }
  }

  /** The reducer looks exactly at the quotes directly under the `cit`
      children of the entry's `sense` children, each once. */
  lemma TranslationsScope(nodes: seq<Node>, entry: NodeId, c: NodeId, q: NodeId)
    requires WellFormed(nodes) && entry < |nodes|
    ensures (c, q) in Translations(nodes, entry) <==>
            exists s :: s in FindAll(nodes, entry, SenseTag) && c in FindAll(nodes, s, CitTag) && q in FindAll(nodes, c, QuoteTag)
  {
    QuotesOfSensesMember(nodes, FindAll(nodes, entry, SenseTag), c, q);
  }

  /** Which pairs the comparison loop skips. */
  datatype Rule =
    | AsWritten    // `not cit1.findall(quote1.tag) or not cit2.findall(quote2.tag) and cit1 is not cit2`
    | BothPresent  // skip when either quote of the pair has been removed already

  /** Every compared `cit` and quote is an element of the arena. */
  predicate Fits(trans: seq<(NodeId, NodeId)>, nodes: seq<Node>)
  {
    forall k :: 0 <= k < |trans| ==> trans[k].0 < |nodes| && trans[k].1 < |nodes|
  }

  /** Some element of `cs[k..]` has tag `tag`, read off the arena as it stands;
      on a well-formed tree, `AnyTagged(nodes, nodes[x].children, tag, 0)` is
      the truthiness of `x.findall(tag)` (see `AnyTaggedFindAll`). */
  predicate AnyTagged(nodes: seq<Node>, cs: seq<NodeId>, tag: string, k: nat)
    decreases |cs| - k
  {
    k < |cs| && ((cs[k] < |nodes| && nodes[cs[k]].tag == tag) || AnyTagged(nodes, cs, tag, k + 1))
  }

  lemma {:induction false} AnyTaggedSome(nodes: seq<Node>, cs: seq<NodeId>, tag: string, k: nat)
    ensures AnyTagged(nodes, cs, tag, k) <==>
            exists m :: k <= m < |cs| && cs[m] < |nodes| && nodes[cs[m]].tag == tag
    decreases |cs| - k
  {
    if k < |cs| {
      AnyTaggedSome(nodes, cs, tag, k + 1);
    }
  }

  /** `if not x.findall(tag)` tests whether `x` has a child with that tag. */
  lemma AnyTaggedFindAll(nodes: seq<Node>, x: NodeId, tag: string)
    requires WellFormed(nodes) && x < |nodes|
    ensures AnyTagged(nodes, nodes[x].children, tag, 0) <==> FindAll(nodes, x, tag) != []
  {
    var cs := nodes[x].children;
    AnyTaggedSome(nodes, cs, tag, 0);
    if FindAll(nodes, x, tag) != [] {
      var y := FindAll(nodes, x, tag)[0];
      assert y in cs;
      var m :| 0 <= m < |cs| && cs[m] == y;
    }
    if AnyTagged(nodes, cs, tag, 0) {
      var m :| 0 <= m < |cs| && cs[m] < |nodes| && nodes[cs[m]].tag == tag;
      assert cs[m] in FindAll(nodes, x, tag);
    }
  }

  /** Whether the pair of translations `t1`, `t2` is skipped. */
  predicate Skip(rule: Rule, nodes: seq<Node>, t1: (NodeId, NodeId), t2: (NodeId, NodeId))
    requires t1.0 < |nodes| && t1.1 < |nodes| && t2.0 < |nodes| && t2.1 < |nodes|
  {
    match rule
    case AsWritten =>
      !AnyTagged(nodes, nodes[t1.0].children, nodes[t1.1].tag, 0) ||
      (!AnyTagged(nodes, nodes[t2.0].children, nodes[t2.1].tag, 0) && t1.0 != t2.0)
    case BothPresent =>
      t1.1 !in nodes[t1.0].children || t2.1 !in nodes[t2.0].children
  }

  /** On a well-formed tree the guard as written is `not cit1.findall(quote1.tag)
      or not cit2.findall(quote2.tag) and cit1 != cit2`, with `and` binding
      tighter than `or`. */
  lemma SkipFindAll(nodes: seq<Node>, t1: (NodeId, NodeId), t2: (NodeId, NodeId))
    requires WellFormed(nodes) && t1.0 < |nodes| && t1.1 < |nodes| && t2.0 < |nodes| && t2.1 < |nodes|
    ensures Skip(AsWritten, nodes, t1, t2) <==>
            FindAll(nodes, t1.0, nodes[t1.1].tag) == [] ||
            (FindAll(nodes, t2.0, nodes[t2.1].tag) == [] && t1.0 != t2.0)
  {
    AnyTaggedFindAll(nodes, t1.0, nodes[t1.1].tag);
    AnyTaggedFindAll(nodes, t2.0, nodes[t2.1].tag);
  }

  /** The tree and the `changed` flag between comparisons. */
  datatype QState = QState(nodes: seq<Node>, changed: bool)

  /** One comparison: unless skipped, equal texts make `cit2.remove(quote2)`,
      which raises `ValueError` when `quote2` is no longer in `cit2`. */
  function Step(rule: Rule, trans: seq<(NodeId, NodeId)>, st: QState, pair: (nat, nat)): (r: Result<QState>)
    requires Fits(trans, st.nodes) && pair.0 < |trans| && pair.1 < |trans|
    ensures r.Ok? ==> |r.value.nodes| == |st.nodes|
  {
    var (c1, q1) := trans[pair.0];
    var (c2, q2) := trans[pair.1];
    var cur := st.nodes;
    if Skip(rule, cur, trans[pair.0], trans[pair.1]) then Ok(st)
    else if cur[q1].text != cur[q2].text then Ok(st)
    else
      match Remove(cur[c2].children, q2)
      case None => Err(ValueError)
      case Some(rest) =>
        Ok(QState(cur[c2 := cur[c2].(children := rest)], true))
  }

  /** The comparisons `(i, i+1) .. (i, j-1)` of row `i`, one after the other,
      stopping at the first exception. */
  function RowAfter(rule: Rule, trans: seq<(NodeId, NodeId)>, st: QState, i: nat, j: nat): (r: Result<QState>)
    requires Fits(trans, st.nodes) && i < j <= |trans|
    ensures r.Ok? ==> |r.value.nodes| == |st.nodes|
    decreases j
  {
    if j == i + 1 then Ok(st)
    else
      match RowAfter(rule, trans, st, i, j - 1)
      case Err(e) => Err(e)
      case Ok(s) => Step(rule, trans, s, (i, j - 1))
  }

  /** Once a comparison of the row raises, the rest of the row is not run. */
  lemma {:induction false} RowAfterErr(rule: Rule, trans: seq<(NodeId, NodeId)>, st: QState, i: nat, j: nat, k: nat)
    requires Fits(trans, st.nodes) && i < j <= k <= |trans|
    requires RowAfter(rule, trans, st, i, j).Err?
    ensures RowAfter(rule, trans, st, i, k) == RowAfter(rule, trans, st, i, j)
    decreases k
  {
    if k > j {
      RowAfterErr(rule, trans, st, i, j, k - 1);
    }
  }

  /** The rows `0 .. i-1` of the comparisons in the order of `itertools.combinations`:
      `(0, 1) .. (0, n-1)`, then `(1, 2) ..`, and so on, stopping at the first exception. */
  function RowsAfter(rule: Rule, trans: seq<(NodeId, NodeId)>, st: QState, i: nat): (r: Result<QState>)
    requires Fits(trans, st.nodes) && i <= |trans|
    ensures r.Ok? ==> |r.value.nodes| == |st.nodes|
  {
    if i == 0 then Ok(st)
    else
      match RowsAfter(rule, trans, st, i - 1)
      case Err(e) => Err(e)
      case Ok(s) => RowAfter(rule, trans, s, i - 1, |trans|)
  }

  /** Once a row raises, the remaining rows are not run. */
  lemma {:induction false} RowsAfterErr(rule: Rule, trans: seq<(NodeId, NodeId)>, st: QState, i: nat, k: nat)
    requires Fits(trans, st.nodes) && i <= k <= |trans|
    requires RowsAfter(rule, trans, st, i).Err?
    ensures RowsAfter(rule, trans, st, k) == RowsAfter(rule, trans, st, i)
    decreases k
  {
    if k > i {
      RowsAfterErr(rule, trans, st, i, k - 1);
    }
  }

  /** A comparison keeps the arena a tree: removing a quote from its `cit` only unlinks it. */
  lemma StepWellFormed(rule: Rule, trans: seq<(NodeId, NodeId)>, st: QState, pair: (nat, nat))
    requires WellFormed(st.nodes) && Fits(trans, st.nodes) && pair.0 < |trans| && pair.1 < |trans|
    ensures var r := Step(rule, trans, st, pair);
            r.Ok? ==> WellFormed(r.value.nodes)
  {
    var (c2, q2) := trans[pair.1];
    var cs := st.nodes[c2].children;
    RemoveAbsent(cs, q2);
    if Remove(cs, q2).Some? {
      RemoveWithout(cs, q2);
      WithoutMembers(cs, {q2});
      WithoutNoDup(cs, {q2});
      ShrinkChildren(st.nodes, c2, Remove(cs, q2).value);
    }
  }

  lemma {:induction false} RowAfterWellFormed(rule: Rule, trans: seq<(NodeId, NodeId)>, st: QState, i: nat, j: nat)
    requires WellFormed(st.nodes) && Fits(trans, st.nodes) && i < j <= |trans|
    ensures var r := RowAfter(rule, trans, st, i, j);
            r.Ok? ==> WellFormed(r.value.nodes)
    decreases j
  {
    if j > i + 1 {
      RowAfterWellFormed(rule, trans, st, i, j - 1);
      var prev := RowAfter(rule, trans, st, i, j - 1);
      if prev.Ok? {
        StepWellFormed(rule, trans, prev.value, (i, j - 1));
      }
    }
  }

  /** The comparison loop as a whole keeps the arena a tree. */
  lemma {:induction false} RowsAfterWellFormed(rule: Rule, trans: seq<(NodeId, NodeId)>, st: QState, i: nat)
    requires WellFormed(st.nodes) && Fits(trans, st.nodes) && i <= |trans|
    ensures var r := RowsAfter(rule, trans, st, i);
            r.Ok? ==> WellFormed(r.value.nodes)
    decreases i
  {
    if i > 0 {
      RowsAfterWellFormed(rule, trans, st, i - 1);
      var prev := RowsAfter(rule, trans, st, i - 1);
      if prev.Ok? {
        RowAfterWellFormed(rule, trans, prev.value, i - 1, |trans|);
        assert RowsAfter(rule, trans, st, i) == RowAfter(rule, trans, prev.value, i - 1, |trans|);
      }
    }
  }

  /** What `rm_doubled_quotes(entry)` returns and the tree it leaves, or the
      exception it raises: `None` when there is at most one quote. */
  function QuotesResult(rule: Rule, nodes: seq<Node>, entry: NodeId): Result<(Option<bool>, seq<Node>)>
    requires WellFormed(nodes) && entry < |nodes|
  {
    var trans := Translations(nodes, entry);
    if |trans| <= 1 then Ok((None, nodes))
    else
      match RowsAfter(rule, trans, QState(nodes, false), |trans|)
      case Err(e) => Err(e)
      case Ok(st) => Ok((Some(st.changed), st.nodes))
  }

  /** The body of the comparison loop for the pair `(i, j)`, on the tree in
      place: it takes one `Step`. */
  method Compare(t: Tree, rule: Rule, trans: seq<(NodeId, NodeId)>, i: nat, j: nat, changed: bool)
    returns (r: Result<bool>)
    requires Fits(trans, t.nodes) && i < j < |trans|
    modifies t
    ensures r.Ok? ==> Step(rule, trans, QState(old(t.nodes), changed), (i, j)) == Ok(QState(t.nodes, r.value))
    ensures r.Err? ==> Step(rule, trans, QState(old(t.nodes), changed), (i, j)) == Err(r.error)
  {
    var (c1, q1) := trans[i];
    var (c2, q2) := trans[j];
    if Skip(rule, t.nodes, trans[i], trans[j]) || t.nodes[q1].text != t.nodes[q2].text {
      return Ok(changed);
    }
    match Remove(t.nodes[c2].children, q2) {
      case None =>
        r := Err(ValueError);
      case Some(rest) =>
        t.nodes := t.nodes[c2 := t.nodes[c2].(children := rest)];
        r := Ok(true);
    }
  }

  /** The comparisons `(i, i+1) .. (i, n-1)` of one row, on the tree in place. */
  method CompareRow(t: Tree, rule: Rule, trans: seq<(NodeId, NodeId)>, i: nat, changed: bool)
    returns (r: Result<bool>)
    requires Fits(trans, t.nodes) && i < |trans|
    modifies t
    ensures r.Ok? ==> RowAfter(rule, trans, QState(old(t.nodes), changed), i, |trans|) == Ok(QState(t.nodes, r.value))
    ensures r.Err? ==> RowAfter(rule, trans, QState(old(t.nodes), changed), i, |trans|) == Err(r.error)
  {
    var c := changed;
    for j := i + 1 to |trans|
      invariant |t.nodes| == |old(t.nodes)|
      invariant RowAfter(rule, trans, QState(old(t.nodes), changed), i, j) == Ok(QState(t.nodes, c))
    {
      var step := Compare(t, rule, trans, i, j, c);
      if step.Err? {
        RowAfterErr(rule, trans, QState(old(t.nodes), changed), i, j + 1, |trans|);
        return Err(step.error);
      }
      c := step.value;
    }
    r := Ok(c);
  }

  /** All rows of the comparisons, on the tree in place. */
  method CompareAll(t: Tree, rule: Rule, trans: seq<(NodeId, NodeId)>) returns (r: Result<bool>)
    requires Fits(trans, t.nodes)
    modifies t
    ensures r.Ok? ==> RowsAfter(rule, trans, QState(old(t.nodes), false), |trans|) == Ok(QState(t.nodes, r.value))
    ensures r.Err? ==> RowsAfter(rule, trans, QState(old(t.nodes), false), |trans|) == Err(r.error)
  {
    var changed := false;
    for i := 0 to |trans|
      invariant |t.nodes| == |old(t.nodes)|
      invariant RowsAfter(rule, trans, QState(old(t.nodes), false), i) == Ok(QState(t.nodes, changed))
    {
      var row := CompareRow(t, rule, trans, i, changed);
      if row.Err? {
        RowsAfterErr(rule, trans, QState(old(t.nodes), false), i + 1, |trans|);
        return Err(row.error);
      }
      changed := row.value;
    }
    r := Ok(changed);
  }

  /** `rm_doubled_quotes`: compare every pair of translations in the order of
      `itertools.combinations` and remove the later quote of each pair with
      equal texts; with at most one translation, return `None`. */
  method RemoveDoubledQuotes(t: Tree, entry: NodeId, rule: Rule) returns (r: Result<Option<bool>>)
    requires t.Valid() && entry < |t.nodes|
    modifies t
    ensures r.Ok? ==> t.Valid()
    ensures var res := QuotesResult(rule, old(t.nodes), entry);
            (res.Err? ==> r == Err(res.error)) && (res.Ok? ==> r == Ok(res.value.0) && t.nodes == res.value.1)
  {
    var trans := Translations(t.nodes, entry);
    if |trans| <= 1 {
      return Ok(None);
    }
    RowsAfterWellFormed(rule, trans, QState(t.nodes, false), |trans|);
    var all := CompareAll(t, rule, trans);
    if all.Err? {
      return Err(all.error);
    }
    r := Ok(Some(all.value));
  }

  // ---------------------------------------------------------------------
  // What the corrected rule computes

  /** The raw texts `quote.text` of the compared quotes, `None` included. */
  function Texts(nodes: seq<Node>, trans: seq<(NodeId, NodeId)>): (r: seq<Option<string>>)
    requires forall k :: 0 <= k < |trans| ==> trans[k].1 < |nodes|
    ensures |r| == |trans|
  {
    seq(|trans|, k requires 0 <= k < |trans| => nodes[trans[k].1].text)
  }

  /** The quotes whose text equals that of an earlier compared quote of the entry. */
  function DoubledQuotes(nodes: seq<Node>, entry: NodeId): set<NodeId>
    requires WellFormed(nodes) && entry < |nodes|
  {
    var trans := Translations(nodes, entry);
    DupQuotes(trans, Texts(nodes, trans))
  }

  /** The quotes of `trans` whose text equals that of an earlier one. */
  function DupQuotes(trans: seq<(NodeId, NodeId)>, texts: seq<Option<string>>): set<NodeId>
    requires |texts| == |trans|
  {
    set k | 0 <= k < |trans| && DupAt(texts, k) :: trans[k].1
  }

  /** Every compared quote is a child of its `cit`, and no quote is compared twice. */
  predicate Placed(nodes: seq<Node>, trans: seq<(NodeId, NodeId)>)
  {
    (forall k :: 0 <= k < |trans| ==>
       trans[k].0 < trans[k].1 < |nodes| && trans[k].1 in nodes[trans[k].0].children) &&
    DistinctQuotes(trans)
  }

  lemma TranslationsPlaced(nodes: seq<Node>, entry: NodeId)
    requires WellFormed(nodes) && entry < |nodes|
    ensures Placed(nodes, Translations(nodes, entry))
  {
    QuotesOfSensesDistinct(nodes, FindAll(nodes, entry, SenseTag));
  }

  /** Under the corrected rule, once rows `0 .. i-1` and the pairs `(i, i+1) ..
      (i, j-1)` are compared, quote `k` is gone exactly when the first quote
      with its text lies before it and was already the first half of a
      compared pair with it. */
  ghost predicate GoneAt(texts: seq<Option<string>>, i: nat, j: nat, k: nat)
    requires k < |texts|
  {
    var f := FirstEqual(texts, k, 0);
    f < k && (f < i || (f == i && k < j))
  }

  /** The quotes among the first `m` compared ones that are gone at `(i, j)`. */
  ghost function GoneUpTo(trans: seq<(NodeId, NodeId)>, texts: seq<Option<string>>, i: nat, j: nat, m: nat): set<NodeId>
    requires |texts| == |trans| && m <= |trans|
  {
    if m == 0 then {}
    else GoneUpTo(trans, texts, i, j, m - 1) + (if GoneAt(texts, i, j, m - 1) then {trans[m - 1].1} else {})
  }

  ghost function GoneSet(trans: seq<(NodeId, NodeId)>, texts: seq<Option<string>>, i: nat, j: nat): set<NodeId>
    requires |texts| == |trans|
  {
    GoneUpTo(trans, texts, i, j, |trans|)
  }

  lemma {:induction false} GoneUpToMember(trans: seq<(NodeId, NodeId)>, texts: seq<Option<string>>, i: nat, j: nat, m: nat, x: NodeId)
    requires |texts| == |trans| && m <= |trans|
    ensures x in GoneUpTo(trans, texts, i, j, m) <==> exists k :: 0 <= k < m && GoneAt(texts, i, j, k) && trans[k].1 == x
  {
    if m > 0 {
      GoneUpToMember(trans, texts, i, j, m - 1, x);
    }
  }

  lemma GoneSetMember(trans: seq<(NodeId, NodeId)>, texts: seq<Option<string>>, i: nat, j: nat, k: nat)
    requires |texts| == |trans| && DistinctQuotes(trans) && k < |trans|
    ensures trans[k].1 in GoneSet(trans, texts, i, j) <==> GoneAt(texts, i, j, k)
  {
    GoneUpToMember(trans, texts, i, j, |trans|, trans[k].1);
    if trans[k].1 in GoneSet(trans, texts, i, j) {
      var k' :| 0 <= k' < |trans| && GoneAt(texts, i, j, k') && trans[k'].1 == trans[k].1;
      assert k' == k;
    }
  }

  /** Two positions at which the same quotes are gone have the same gone set. */
  lemma {:induction false} GoneUpToSame(trans: seq<(NodeId, NodeId)>, texts: seq<Option<string>>, i: nat, j: nat, i': nat, j': nat, m: nat)
    requires |texts| == |trans| && m <= |trans|
    requires forall k :: 0 <= k < m ==> (GoneAt(texts, i, j, k) <==> GoneAt(texts, i', j', k))
    ensures GoneUpTo(trans, texts, i, j, m) == GoneUpTo(trans, texts, i', j', m)
  {
    if m > 0 {
      GoneUpToSame(trans, texts, i, j, i', j', m - 1);
    }
  }

  /** Comparing `(i, j)` changes nothing unless `i` is the first quote with the text of `j`. */
  lemma GoneSetKeep(trans: seq<(NodeId, NodeId)>, texts: seq<Option<string>>, i: nat, j: nat)
    requires |texts| == |trans| && i < j < |trans|
    requires FirstEqual(texts, j, 0) != i
    ensures GoneSet(trans, texts, i, j + 1) == GoneSet(trans, texts, i, j)
  {
    GoneUpToSame(trans, texts, i, j + 1, i, j, |trans|);
  }

  lemma {:induction false} GoneUpToAdd(trans: seq<(NodeId, NodeId)>, texts: seq<Option<string>>, i: nat, j: nat, m: nat)
    requires |texts| == |trans| && i < j < |trans| && m <= |trans|
    requires FirstEqual(texts, j, 0) == i
    ensures GoneUpTo(trans, texts, i, j + 1, m) ==
            GoneUpTo(trans, texts, i, j, m) + (if j < m then {trans[j].1} else {})
  {
    if m > 0 {
      GoneUpToAdd(trans, texts, i, j, m - 1);
    }
  }

  /** Comparing `(i, j)` with `i` first of the text of `j` removes quote `j`. */
  lemma GoneSetAdd(trans: seq<(NodeId, NodeId)>, texts: seq<Option<string>>, i: nat, j: nat)
    requires |texts| == |trans| && i < j < |trans|
    requires FirstEqual(texts, j, 0) == i
    ensures GoneSet(trans, texts, i, j + 1) == GoneSet(trans, texts, i, j) + {trans[j].1}
  {
    GoneUpToAdd(trans, texts, i, j, |trans|);
  }

  /** The loop state under the corrected rule after rows `0 .. i-1` and pairs `(i, i+1) .. (i, j-1)`. */
  ghost function Snapshot(nodes: seq<Node>, trans: seq<(NodeId, NodeId)>, i: nat, j: nat): (st: QState)
    requires Fits(trans, nodes)
    ensures Fits(trans, st.nodes)
  {
    var gone := GoneSet(trans, Texts(nodes, trans), i, j);
    QState(PrunedAll(nodes, gone), gone != {})
  }

  /** In a snapshot, quote `k` is still in its `cit` exactly when it is not gone. */
  lemma SnapshotMember(nodes: seq<Node>, trans: seq<(NodeId, NodeId)>, i: nat, j: nat, k: nat)
    requires WellFormed(nodes) && Placed(nodes, trans) && k < |trans|
    ensures var cur := Snapshot(nodes, trans, i, j).nodes;
            (trans[k].1 in cur[trans[k].0].children <==> !GoneAt(Texts(nodes, trans), i, j, k)) &&
            cur[trans[k].1].text == Texts(nodes, trans)[k]
  {
    var gone := GoneSet(trans, Texts(nodes, trans), i, j);
    GoneSetMember(trans, Texts(nodes, trans), i, j, k);
    WithoutMember(nodes[trans[k].0].children, gone, trans[k].1);
  }

  /** A comparison the corrected rule skips, or whose texts differ, keeps the snapshot. */
  lemma StepKeeps(nodes: seq<Node>, trans: seq<(NodeId, NodeId)>, i: nat, j: nat)
    requires WellFormed(nodes) && Placed(nodes, trans) && i < j < |trans|
    requires var texts := Texts(nodes, trans);
             !(FirstEqual(texts, i, 0) == i && i <= FirstEqual(texts, j, 0) && texts[i] == texts[j])
    ensures Step(BothPresent, trans, Snapshot(nodes, trans, i, j), (i, j)) == Ok(Snapshot(nodes, trans, i, j + 1))
  {
    var texts := Texts(nodes, trans);
    SnapshotMember(nodes, trans, i, j, i);
    SnapshotMember(nodes, trans, i, j, j);
    assert FirstEqual(texts, j, 0) != i;
    GoneSetKeep(trans, texts, i, j);
  }

  /** A comparison of the first quote with a text against a later quote with
      the same text removes the later one. */
  lemma StepRemoves(nodes: seq<Node>, trans: seq<(NodeId, NodeId)>, i: nat, j: nat)
    requires WellFormed(nodes) && Placed(nodes, trans) && i < j < |trans|
    requires var texts := Texts(nodes, trans);
             FirstEqual(texts, i, 0) == i && i <= FirstEqual(texts, j, 0) && texts[i] == texts[j]
    ensures Step(BothPresent, trans, Snapshot(nodes, trans, i, j), (i, j)) == Ok(Snapshot(nodes, trans, i, j + 1))
  {
    var texts := Texts(nodes, trans);
    var gone := GoneSet(trans, texts, i, j);
    var cur := PrunedAll(nodes, gone);
    var (cj, qj) := trans[j];
    SnapshotMember(nodes, trans, i, j, i);
    SnapshotMember(nodes, trans, i, j, j);
    assert FirstEqual(texts, j, 0) == i;
    GoneSetAdd(trans, texts, i, j);
    GoneSetMember(trans, texts, i, j, j);
    PrunedAllRemove(nodes, gone, cj, qj, cur);
  }

  /** One comparison under the corrected rule moves from one snapshot to the next. */
  lemma StepExact(nodes: seq<Node>, trans: seq<(NodeId, NodeId)>, i: nat, j: nat)
    requires WellFormed(nodes) && Placed(nodes, trans) && i < j < |trans|
    ensures Step(BothPresent, trans, Snapshot(nodes, trans, i, j), (i, j)) == Ok(Snapshot(nodes, trans, i, j + 1))
  {
    var texts := Texts(nodes, trans);
    if FirstEqual(texts, i, 0) == i && i <= FirstEqual(texts, j, 0) && texts[i] == texts[j] {
      StepRemoves(nodes, trans, i, j);
    } else {
      StepKeeps(nodes, trans, i, j);
    }
  }

  /** Every comparison of row `i` moves from one snapshot to the next. */
  lemma RowSteps(nodes: seq<Node>, trans: seq<(NodeId, NodeId)>, i: nat, j: nat)
    requires WellFormed(nodes) && Placed(nodes, trans) && i < j <= |trans|
    ensures forall k {:trigger Step(BothPresent, trans, Snapshot(nodes, trans, i, k), (i, k))} :: i < k < j ==>
              Step(BothPresent, trans, Snapshot(nodes, trans, i, k), (i, k)) == Ok(Snapshot(nodes, trans, i, k + 1))
  {
    forall k | i < k < j
      ensures Step(BothPresent, trans, Snapshot(nodes, trans, i, k), (i, k)) == Ok(Snapshot(nodes, trans, i, k + 1))
    {
      StepExact(nodes, trans, i, k);
    }
  }

  /** When every comparison of row `i` moves from one snapshot to the next,
      the row up to pair `(i, j)` moves from the start of the row to snapshot `(i, j)`. */
  lemma {:induction false} RowExact(nodes: seq<Node>, trans: seq<(NodeId, NodeId)>, i: nat, j: nat)
    requires Fits(trans, nodes) && i < j <= |trans|
    requires forall k {:trigger Step(BothPresent, trans, Snapshot(nodes, trans, i, k), (i, k))} :: i < k < j ==>
               Step(BothPresent, trans, Snapshot(nodes, trans, i, k), (i, k)) == Ok(Snapshot(nodes, trans, i, k + 1))
    ensures RowAfter(BothPresent, trans, Snapshot(nodes, trans, i, i + 1), i, j) == Ok(Snapshot(nodes, trans, i, j))
    decreases j
  {
    if j > i + 1 {
      RowExact(nodes, trans, i, j - 1);
      assert Step(BothPresent, trans, Snapshot(nodes, trans, i, j - 1), (i, j - 1)) == Ok(Snapshot(nodes, trans, i, j));
    }
  }

  /** The end of row `i` is the start of row `i + 1`. */
  lemma NextRow(nodes: seq<Node>, trans: seq<(NodeId, NodeId)>, i: nat)
    requires Fits(trans, nodes)
    ensures Snapshot(nodes, trans, i, |trans|) == Snapshot(nodes, trans, i + 1, i + 2)
  {
    var texts := Texts(nodes, trans);
    GoneUpToSame(trans, texts, i, |trans|, i + 1, i + 2, |trans|);
  }

  /** Row `i` as a whole moves from its start to the start of row `i + 1`. */
  lemma RowComplete(nodes: seq<Node>, trans: seq<(NodeId, NodeId)>, i: nat)
    requires WellFormed(nodes) && Placed(nodes, trans) && i < |trans|
    ensures RowAfter(BothPresent, trans, Snapshot(nodes, trans, i, i + 1), i, |trans|) == Ok(Snapshot(nodes, trans, i + 1, i + 2))
  {
    RowSteps(nodes, trans, i, |trans|);
    RowExact(nodes, trans, i, |trans|);
    NextRow(nodes, trans, i);
  }

  /** When every row moves from its start to the start of the next, the rows
      `0 .. i-1` move from the first snapshot to the start of row `i`. */
  lemma {:induction false} RowsExact(nodes: seq<Node>, trans: seq<(NodeId, NodeId)>, i: nat)
    requires Fits(trans, nodes) && i <= |trans|
    requires forall k {:trigger RowAfter(BothPresent, trans, Snapshot(nodes, trans, k, k + 1), k, |trans|)} :: 0 <= k < i ==>
               RowAfter(BothPresent, trans, Snapshot(nodes, trans, k, k + 1), k, |trans|) == Ok(Snapshot(nodes, trans, k + 1, k + 2))
    ensures RowsAfter(BothPresent, trans, Snapshot(nodes, trans, 0, 1), i) == Ok(Snapshot(nodes, trans, i, i + 1))
    decreases i
  {
    if i > 0 {
      RowsExact(nodes, trans, i - 1);
      assert RowAfter(BothPresent, trans, Snapshot(nodes, trans, i - 1, i), i - 1, |trans|) == Ok(Snapshot(nodes, trans, i, i + 1));
    }
  }

  /** Under the corrected rule, all comparisons move the first snapshot to the last. */
  lemma AllRows(nodes: seq<Node>, trans: seq<(NodeId, NodeId)>)
    requires WellFormed(nodes) && Placed(nodes, trans)
    ensures RowsAfter(BothPresent, trans, Snapshot(nodes, trans, 0, 1), |trans|) ==
            Ok(Snapshot(nodes, trans, |trans|, |trans| + 1))
  {
    forall k {:trigger RowAfter(BothPresent, trans, Snapshot(nodes, trans, k, k + 1), k, |trans|)} | 0 <= k < |trans|
      ensures RowAfter(BothPresent, trans, Snapshot(nodes, trans, k, k + 1), k, |trans|) == Ok(Snapshot(nodes, trans, k + 1, k + 2))
    {
      RowComplete(nodes, trans, k);
    }
    RowsExact(nodes, trans, |trans|);
  }

  /** Before the first comparison no quote is gone. */
  lemma FirstSnapshot(nodes: seq<Node>, trans: seq<(NodeId, NodeId)>)
    requires Fits(trans, nodes)
    ensures Snapshot(nodes, trans, 0, 1) == QState(nodes, false)
  {
    var texts := Texts(nodes, trans);
    forall x | x in GoneSet(trans, texts, 0, 1)
      ensures false
    {
      GoneUpToMember(trans, texts, 0, 1, |trans|, x);
    }
    PrunedAllNothing(nodes);
  }

  /** After the last row, quote `k` is gone exactly when an earlier quote has its text. */
  lemma GoneAtEnd(texts: seq<Option<string>>, k: nat)
    requires k < |texts|
    ensures GoneAt(texts, |texts|, |texts| + 1, k) <==> DupAt(texts, k)
  {
    var f := FirstEqual(texts, k, 0);
    if DupAt(texts, k) {
      var i :| 0 <= i < k && texts[i] == texts[k];
      assert f <= i;
    }
  }

  /** After the last row, the gone quotes are those with an earlier quote of the same text. */
  lemma GoneSetEnd(trans: seq<(NodeId, NodeId)>, texts: seq<Option<string>>)
    requires |texts| == |trans|
    ensures GoneSet(trans, texts, |trans|, |trans| + 1) == DupQuotes(trans, texts)
  {
    var gone := GoneSet(trans, texts, |trans|, |trans| + 1);
    forall x
      ensures x in gone <==> x in DupQuotes(trans, texts)
    {
      GoneUpToMember(trans, texts, |trans|, |trans| + 1, |trans|, x);
      forall k | 0 <= k < |trans|
        ensures GoneAt(texts, |trans|, |trans| + 1, k) <==> DupAt(texts, k)
      {
        GoneAtEnd(texts, k);
      }
    }
  }

  /** Under the corrected rule, `rm_doubled_quotes` never raises: it removes
      from its `cit` every compared quote whose text equals that of an earlier
      compared quote, and returns whether it removed any, or `None` when there
      is at most one quote. */
  lemma BothPresentExact(nodes: seq<Node>, entry: NodeId)
    requires WellFormed(nodes) && entry < |nodes|
    ensures var gone := DoubledQuotes(nodes, entry);
            QuotesResult(BothPresent, nodes, entry) ==
            if |Translations(nodes, entry)| <= 1 then Ok((None, nodes))
            else Ok((Some(gone != {}), PrunedAll(nodes, gone)))
  {
    var trans := Translations(nodes, entry);
    if |trans| > 1 {
      TranslationsPlaced(nodes, entry);
      FirstSnapshot(nodes, trans);
      AllRows(nodes, trans);
      GoneSetEnd(trans, Texts(nodes, trans));
    }
  }

  /** Equal texts have the same first occurrence. */
  lemma FirstEqualSame(texts: seq<Option<string>>, i: nat, j: nat)
    requires i < |texts| && j < |texts| && texts[i] == texts[j]
    ensures FirstEqual(texts, i, 0) == FirstEqual(texts, j, 0)
  {
    var fi, fj := FirstEqual(texts, i, 0), FirstEqual(texts, j, 0);
    assert texts[fi] == texts[j] && texts[fj] == texts[i];
  }

  /** A quote still linked to its `cit` makes `cit.findall(quote.tag)` non-empty. */
  lemma LinkedTagged(nodes: seq<Node>, c: NodeId, q: NodeId)
    requires c < |nodes| && q < |nodes| && q in nodes[c].children
    ensures AnyTagged(nodes, nodes[c].children, nodes[q].tag, 0)
  {
    var cs := nodes[c].children;
    var m :| 0 <= m < |cs| && cs[m] == q;
    AnyTaggedSome(nodes, cs, nodes[q].tag, 0);
  }

  /** From any snapshot of the corrected rule, the rule as written either
      raises or takes the same step: the two guards disagree only when the
      second quote is already gone, and then `remove` raises. */
  lemma StepAgree(nodes: seq<Node>, trans: seq<(NodeId, NodeId)>, i: nat, j: nat)
    requires WellFormed(nodes) && Placed(nodes, trans) && i < j < |trans|
    ensures var st := Snapshot(nodes, trans, i, j);
            var a := Step(AsWritten, trans, st, (i, j));
            a.Err? || a == Step(BothPresent, trans, st, (i, j))
  {
    var texts := Texts(nodes, trans);
    var cur := Snapshot(nodes, trans, i, j).nodes;
    var (ci, qi) := trans[i];
    var (cj, qj) := trans[j];
    SnapshotMember(nodes, trans, i, j, i);
    SnapshotMember(nodes, trans, i, j, j);
    if texts[i] == texts[j] {
      FirstEqualSame(texts, i, j);
      if FirstEqual(texts, i, 0) == i {
        LinkedTagged(cur, ci, qi);
        LinkedTagged(cur, cj, qj);
      } else {
        RemoveAbsent(cur[cj].children, qj);
      }
    }
  }

  /** When every comparison of row `i` under the rule as written either
      raises or moves from one snapshot to the next, so does the row up to
      pair `(i, j)`. */
  lemma {:induction false} RowAgree(nodes: seq<Node>, trans: seq<(NodeId, NodeId)>, i: nat, j: nat)
    requires Fits(trans, nodes) && i < j <= |trans|
    requires forall k {:trigger Step(AsWritten, trans, Snapshot(nodes, trans, i, k), (i, k))} :: i < k < j ==>
               var a := Step(AsWritten, trans, Snapshot(nodes, trans, i, k), (i, k));
               a.Ok? ==> a == Ok(Snapshot(nodes, trans, i, k + 1))
    ensures var a := RowAfter(AsWritten, trans, Snapshot(nodes, trans, i, i + 1), i, j);
            a.Ok? ==> a == Ok(Snapshot(nodes, trans, i, j))
    decreases j
  {
    if j > i + 1 {
      RowAgree(nodes, trans, i, j - 1);
      var a := Step(AsWritten, trans, Snapshot(nodes, trans, i, j - 1), (i, j - 1));
      assert a.Ok? ==> a == Ok(Snapshot(nodes, trans, i, j));
    }
  }

  /** Row `i` under the rule as written either raises or moves from its start
      to the start of row `i + 1`. */
  lemma RowAgrees(nodes: seq<Node>, trans: seq<(NodeId, NodeId)>, i: nat)
    requires WellFormed(nodes) && Placed(nodes, trans) && i < |trans|
    ensures var a := RowAfter(AsWritten, trans, Snapshot(nodes, trans, i, i + 1), i, |trans|);
            a.Ok? ==> a == Ok(Snapshot(nodes, trans, i + 1, i + 2))
  {
    forall k | i < k < |trans|
      ensures var a := Step(AsWritten, trans, Snapshot(nodes, trans, i, k), (i, k));
              a.Ok? ==> a == Ok(Snapshot(nodes, trans, i, k + 1))
    {
      StepAgree(nodes, trans, i, k);
      StepExact(nodes, trans, i, k);
    }
    RowAgree(nodes, trans, i, |trans|);
    NextRow(nodes, trans, i);
  }

  /** When every row under the rule as written either raises or moves from
      its start to the start of the next, so do the rows `0 .. i-1`. */
  lemma {:induction false} RowsAgree(nodes: seq<Node>, trans: seq<(NodeId, NodeId)>, i: nat)
    requires Fits(trans, nodes) && i <= |trans|
    requires forall k {:trigger RowAfter(AsWritten, trans, Snapshot(nodes, trans, k, k + 1), k, |trans|)} :: 0 <= k < i ==>
               var a := RowAfter(AsWritten, trans, Snapshot(nodes, trans, k, k + 1), k, |trans|);
               a.Ok? ==> a == Ok(Snapshot(nodes, trans, k + 1, k + 2))
    ensures var a := RowsAfter(AsWritten, trans, Snapshot(nodes, trans, 0, 1), i);
            a.Ok? ==> a == Ok(Snapshot(nodes, trans, i, i + 1))
    decreases i
  {
    if i > 0 {
      RowsAgree(nodes, trans, i - 1);
      var a := RowAfter(AsWritten, trans, Snapshot(nodes, trans, i - 1, i), i - 1, |trans|);
      assert a.Ok? ==> a == Ok(Snapshot(nodes, trans, i, i + 1));
    }
  }

  /** Whenever `rm_doubled_quotes` as written returns, it returns what the
      corrected rule returns and leaves the same tree: the guard as written
      differs only by raising `ValueError`. */
  lemma AsWrittenAgrees(nodes: seq<Node>, entry: NodeId)
    requires WellFormed(nodes) && entry < |nodes|
    ensures var a := QuotesResult(AsWritten, nodes, entry);
            a.Ok? ==> a == QuotesResult(BothPresent, nodes, entry)
  {
    var trans := Translations(nodes, entry);
    if |trans| > 1 {
      TranslationsPlaced(nodes, entry);
      FirstSnapshot(nodes, trans);
      forall k {:trigger RowAfter(AsWritten, trans, Snapshot(nodes, trans, k, k + 1), k, |trans|)} | 0 <= k < |trans|
        ensures var a := RowAfter(AsWritten, trans, Snapshot(nodes, trans, k, k + 1), k, |trans|);
                a.Ok? ==> a == Ok(Snapshot(nodes, trans, k + 1, k + 2))
      {
        RowAgrees(nodes, trans, k);
      }
      RowsAgree(nodes, trans, |trans|);
      AllRows(nodes, trans);
    }
  }

  /** Whenever the reducer returns, under either rule, it leaves a
      well-formed tree over the same nodes. */
  lemma QuotesWellFormed(rule: Rule, nodes: seq<Node>, entry: NodeId)
    requires WellFormed(nodes) && entry < |nodes|
    ensures var res := QuotesResult(rule, nodes, entry);
            res.Ok? ==> WellFormed(res.value.1) && |res.value.1| == |nodes|
  {
    var trans := Translations(nodes, entry);
    if |trans| > 1 {
      TranslationsPlaced(nodes, entry);
      RowsAfterWellFormed(rule, trans, QState(nodes, false), |trans|);
    }
  }

  /** A compared quote is doubled exactly when an earlier compared quote has its text. */
  lemma DupQuotesMember(trans: seq<(NodeId, NodeId)>, texts: seq<Option<string>>, k: nat)
    requires |texts| == |trans| && DistinctQuotes(trans) && k < |trans|
    ensures trans[k].1 in DupQuotes(trans, texts) <==> DupAt(texts, k)
  {
    if trans[k].1 in DupQuotes(trans, texts) {
      var k' :| 0 <= k' < |trans| && DupAt(texts, k') && trans[k'].1 == trans[k].1;
      assert k' == k;
    }
  }

  /** Compared quote `k` stays in its `cit` exactly when no earlier compared
      quote of the entry has the same text; the corrected rule always gets
      there, the rule as written whenever it does not raise. */
  lemma QuoteSurvives(rule: Rule, nodes: seq<Node>, entry: NodeId, k: nat)
    requires WellFormed(nodes) && entry < |nodes|
    requires k < |Translations(nodes, entry)|
    ensures var trans := Translations(nodes, entry);
            var texts := Texts(nodes, trans);
            var res := QuotesResult(rule, nodes, entry);
            (rule == BothPresent ==> res.Ok?) &&
            (res.Ok? ==>
               (trans[k].1 in res.value.1[trans[k].0].children <==> forall i :: 0 <= i < k ==> texts[i] != texts[k]))
  {
    var trans := Translations(nodes, entry);
    var texts := Texts(nodes, trans);
    AsWrittenAgrees(nodes, entry);
    BothPresentExact(nodes, entry);
    TranslationsPlaced(nodes, entry);
    DupQuotesMember(trans, texts, k);
    WithoutMember(nodes[trans[k].0].children, DoubledQuotes(nodes, entry), trans[k].1);
  }

  /** When the reducer returns, no two surviving compared quotes have the same text. */
  lemma SurvivingQuotesDistinct(rule: Rule, nodes: seq<Node>, entry: NodeId, a: nat, b: nat)
    requires WellFormed(nodes) && entry < |nodes|
    requires a < b < |Translations(nodes, entry)|
    requires var trans := Translations(nodes, entry);
             var res := QuotesResult(rule, nodes, entry);
             res.Ok? && trans[a].1 in res.value.1[trans[a].0].children && trans[b].1 in res.value.1[trans[b].0].children
    ensures var trans := Translations(nodes, entry);
            var res := QuotesResult(rule, nodes, entry);
            res.value.1[trans[a].1].text != res.value.1[trans[b].1].text
  {
    var trans := Translations(nodes, entry);
    var texts := Texts(nodes, trans);
    AsWrittenAgrees(nodes, entry);
    var after := QuotesResult(BothPresent, nodes, entry).value.1;
    QuoteSurvives(BothPresent, nodes, entry, b);
    BothPresentExact(nodes, entry);
    assert after[trans[a].1].text == texts[a] && after[trans[b].1].text == texts[b];
  }

  /** The reducer removes nothing but doubled compared quotes, each from its
      own `cit`, and leaves tags, texts and attributes alone; the corrected
      rule always returns, the rule as written whenever it does not raise. */
  lemma QuotesScope(rule: Rule, nodes: seq<Node>, entry: NodeId, x: NodeId, y: NodeId)
    requires WellFormed(nodes) && entry < |nodes| && x < |nodes|
    ensures var trans := Translations(nodes, entry);
            var texts := Texts(nodes, trans);
            var res := QuotesResult(rule, nodes, entry);
            (rule == BothPresent ==> res.Ok?) &&
            (res.Ok? ==>
               |res.value.1| == |nodes| &&
               res.value.1[x] == nodes[x].(children := res.value.1[x].children) &&
               (y in res.value.1[x].children ==> y in nodes[x].children) &&
               (y in nodes[x].children && y !in res.value.1[x].children ==>
                  exists k :: 0 <= k < |trans| && trans[k] == (x, y) && DupAt(texts, k)))
  {
    var trans := Translations(nodes, entry);
    var texts := Texts(nodes, trans);
    var gone := DoubledQuotes(nodes, entry);
    AsWrittenAgrees(nodes, entry);
    BothPresentExact(nodes, entry);
    if |trans| > 1 {
      WithoutMember(nodes[x].children, gone, y);
      if y in nodes[x].children && y in gone {
        TranslationsPlaced(nodes, entry);
        var k :| 0 <= k < |trans| && DupAt(texts, k) && trans[k].1 == y;
        assert y in nodes[trans[k].0].children;
      }
    }
  }

  /** The reducer returns `True` exactly when it changed the tree, and `None`
      only when there is at most one quote to compare; the corrected rule
      always returns, the rule as written whenever it does not raise. */
  lemma QuotesFlag(rule: Rule, nodes: seq<Node>, entry: NodeId)
    requires WellFormed(nodes) && entry < |nodes|
    ensures var res := QuotesResult(rule, nodes, entry);
            (rule == BothPresent ==> res.Ok?) &&
            (res.Ok? ==>
               (res.value.0 == None <==> |Translations(nodes, entry)| <= 1) &&
               (res.value.0 == Some(true) <==> res.value.1 != nodes))
  {
    var trans := Translations(nodes, entry);
    var gone := DoubledQuotes(nodes, entry);
    AsWrittenAgrees(nodes, entry);
    BothPresentExact(nodes, entry);
    if |trans| > 1 {
      if gone != {} {
        var y :| y in gone;
        var k :| 0 <= k < |trans| && DupAt(Texts(nodes, trans), k) && trans[k].1 == y;
        TranslationsPlaced(nodes, entry);
        WithoutMember(nodes[trans[k].0].children, gone, y);
        assert PrunedAll(nodes, gone)[trans[k].0] != nodes[trans[k].0];
      } else {
        PrunedAllNothing(nodes);
      }
    }
  }

  /** Row 0 on three equal quotes `q1, q2, q3` of one `cit` `c`, under the
      guard as written: pairs `(0, 1)` and `(0, 2)` remove `q2` and `q3`. */
  lemma ThreeEqualRowZero(nodes: seq<Node>, c: NodeId, q1: NodeId, q2: NodeId, q3: NodeId)
    requires c < |nodes| && q1 < |nodes| && q2 < |nodes| && q3 < |nodes|
    requires nodes[c].children == [q1, q2, q3] && NoDup(nodes[c].children)
    requires nodes[q1].text == nodes[q2].text == nodes[q3].text
    ensures RowAfter(AsWritten, [(c, q1), (c, q2), (c, q3)], QState(nodes, false), 0, 3) ==
            Ok(QState(nodes[c := nodes[c].(children := [q1])], true))
  {
    var trans := [(c, q1), (c, q2), (c, q3)];
    var st0 := QState(nodes, false);
    var st1 := QState(nodes[c := nodes[c].(children := [q1, q3])], true);
    assert [q1, q2, q3][1..] == [q2, q3] && [q2, q3][1..] == [q3] && [q1, q3][1..] == [q3] && [q3][1..] == [];
    assert [q1, q2, q3][0] != q2 && [q1, q3][0] != q3;
    assert Remove([q1, q2, q3], q2) == Some([q1] + [q3]) && [q1] + [q3] == [q1, q3];
    assert Remove([q1, q3], q3) == Some([q1] + []) && [q1] + [] == [q1];
    assert AnyTagged(nodes, [q1, q2, q3], nodes[q1].tag, 0);
    assert Step(AsWritten, trans, st0, (0, 1)) == Ok(st1);
    var cur := st1.nodes;
    assert AnyTagged(cur, [q1, q3], cur[q1].tag, 0);
    assert cur[c := cur[c].(children := [q1])] == nodes[c := nodes[c].(children := [q1])];
  }

  /** Row 1 continues from there: pair `(1, 2)` is not skipped, since `c`
      still holds `q1`, and `c.remove(q3)` raises. */
  lemma ThreeEqualRowOne(nodes: seq<Node>, c: NodeId, q1: NodeId, q2: NodeId, q3: NodeId)
    requires c < |nodes| && q1 < |nodes| && q2 < |nodes| && q3 < |nodes| && q1 != q3
    requires nodes[q1].tag == nodes[q2].tag && nodes[q2].text == nodes[q3].text
    ensures RowAfter(AsWritten, [(c, q1), (c, q2), (c, q3)],
                     QState(nodes[c := nodes[c].(children := [q1])], true), 1, 3) == Err(ValueError)
  {
    var cur := nodes[c := nodes[c].(children := [q1])];
    assert AnyTagged(cur, [q1], cur[q2].tag, 0);
    assert Remove([q1], q3) == None;
  }

  /** All rows on three equal quotes of one `cit`: row 1 raises, and row 2 is not run. */
  lemma ThreeEqualRows(nodes: seq<Node>, c: NodeId, q1: NodeId, q2: NodeId, q3: NodeId)
    requires c < |nodes| && q1 < |nodes| && q2 < |nodes| && q3 < |nodes|
    requires nodes[c].children == [q1, q2, q3] && NoDup(nodes[c].children)
    requires nodes[q1].tag == nodes[q2].tag
    requires nodes[q1].text == nodes[q2].text == nodes[q3].text
    ensures RowsAfter(AsWritten, [(c, q1), (c, q2), (c, q3)], QState(nodes, false), 3) == Err(ValueError)
  {
    var trans := [(c, q1), (c, q2), (c, q3)];
    var st0 := QState(nodes, false);
    assert nodes[c].children[0] != nodes[c].children[2];
    ThreeEqualRowZero(nodes, c, q1, q2, q3);
    ThreeEqualRowOne(nodes, c, q1, q2, q3);
    assert RowsAfter(AsWritten, trans, st0, 1) == Ok(QState(nodes[c := nodes[c].(children := [q1])], true));
    assert RowsAfter(AsWritten, trans, st0, 2) == Err(ValueError);
    RowsAfterErr(AsWritten, trans, st0, 2, 3);
  }

  /** The guard as written does not skip a pair whose second quote is already
      gone while its `cit` still holds another quote: when an entry's compared
      quotes are three quotes of one `cit` with the same text, pairs `(0, 1)`
      and `(0, 2)` remove the second and the third quote, and pair `(1, 2)`
      removes the third again, so `rm_doubled_quotes` raises `ValueError`.
      The corrected rule returns `True` on the same entry (see `QuotesFlag`). */
  lemma AsWrittenRaises(nodes: seq<Node>, entry: NodeId, c: NodeId, q1: NodeId, q2: NodeId, q3: NodeId)
    requires WellFormed(nodes) && entry < |nodes|
    requires c < |nodes| && q1 < |nodes| && q2 < |nodes| && q3 < |nodes|
    requires nodes[c].children == [q1, q2, q3]
    requires nodes[q1].tag == nodes[q2].tag == nodes[q3].tag == QuoteTag
    requires nodes[q1].text == nodes[q2].text == nodes[q3].text
    requires Translations(nodes, entry) == [(c, q1), (c, q2), (c, q3)]
    ensures QuotesResult(AsWritten, nodes, entry) == Err(ValueError)
  {
    assert NoDup(nodes[c].children);
    ThreeEqualRows(nodes, c, q1, q2, q3);
  }
}
