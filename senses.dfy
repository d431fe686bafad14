/** `rm_doubled_senses`: drop every `sense` child of an entry whose quote
    signature equals that of an earlier `sense` child. */
module Senses {
  import opened Base
  import opened Text
  import opened Combinations
  import opened Dups
  import opened Etree

  /** `if q.text`: a text is truthy unless it is `None` or empty. */
  predicate HasText(text: Option<string>)
  {
    text.Some? && text.value != ""
  }

  /** The stripped texts of the quote elements among `ids`, skipping falsy texts. */
  function QuoteTexts(nodes: seq<Node>, ids: seq<NodeId>): (r: seq<string>)
    requires forall k :: 0 <= k < |ids| ==> ids[k] < |nodes|
  {
    if ids == [] then []
    else
      var n := nodes[ids[0]];
      (if n.tag == QuoteTag && HasText(n.text) then [Strip(n.text.value)] else []) + QuoteTexts(nodes, ids[1..])
  }

  /** The signature of a sense: `tuple(q.text.strip() for q in sense.iter(quote) if q.text)`. */
  function Signature(nodes: seq<Node>, s: NodeId): seq<string>
    requires WellFormed(nodes) && s < |nodes|
  {
    QuoteTexts(nodes, Iter(nodes, s))
  }

  /** A quote text is in the list exactly when some quote among `ids` with a
      truthy text strips to it. */
  lemma {:induction false} QuoteTextsMember(nodes: seq<Node>, ids: seq<NodeId>, t: string)
    requires forall k :: 0 <= k < |ids| ==> ids[k] < |nodes|
    ensures t in QuoteTexts(nodes, ids) <==>
            exists m :: 0 <= m < |ids| && nodes[ids[m]].tag == QuoteTag && HasText(nodes[ids[m]].text) &&
                        t == Strip(nodes[ids[m]].text.value)
  {
    if ids != [] {
      QuoteTextsMember(nodes, ids[1..], t);
      if exists m :: 0 <= m < |ids| && nodes[ids[m]].tag == QuoteTag && HasText(nodes[ids[m]].text) &&
                     t == Strip(nodes[ids[m]].text.value) {
        var m :| 0 <= m < |ids| && nodes[ids[m]].tag == QuoteTag && HasText(nodes[ids[m]].text) &&
                 t == Strip(nodes[ids[m]].text.value);
        if m > 0 {
          assert ids[1..][m - 1] == ids[m];
        }
      }
    }
  }

  lemma QuoteTextsCons(nodes: seq<Node>, x: NodeId, cs: seq<NodeId>)
    requires x < |nodes| && forall k :: 0 <= k < |cs| ==> cs[k] < |nodes|
    ensures QuoteTexts(nodes, [x] + cs) ==
            (if nodes[x].tag == QuoteTag && HasText(nodes[x].text) then [Strip(nodes[x].text.value)] else []) +
            QuoteTexts(nodes, cs)
  {
    assert ([x] + cs)[1..] == cs;
  }

  /** The quote texts of two runs of elements, one after the other, are the
      texts of the first run followed by those of the second: the signature
      keeps document order and every repetition. */
  lemma {:induction false} QuoteTextsConcat(nodes: seq<Node>, xs: seq<NodeId>, ys: seq<NodeId>)
    requires forall k :: 0 <= k < |xs| ==> xs[k] < |nodes|
    requires forall k :: 0 <= k < |ys| ==> ys[k] < |nodes|
    ensures QuoteTexts(nodes, xs + ys) == QuoteTexts(nodes, xs) + QuoteTexts(nodes, ys)
  {
    if xs == [] {
      assert xs + ys == ys;
      assert [] + QuoteTexts(nodes, ys) == QuoteTexts(nodes, ys);
    } else {
      var x, rest := xs[0], xs[1..];
      QuoteTextsConcat(nodes, rest, ys);
      AppendAssoc([x], rest, ys);
      assert xs == [x] + rest;
      QuoteTextsCons(nodes, x, rest);
      QuoteTextsCons(nodes, x, rest + ys);
      AppendAssoc(if nodes[x].tag == QuoteTag && HasText(nodes[x].text) then [Strip(nodes[x].text.value)] else [],
                  QuoteTexts(nodes, rest), QuoteTexts(nodes, ys));
    }
  }

  /** The signature of `s` holds exactly the stripped truthy texts of the
      quotes in the subtree of `s`, and no more items than that subtree has
      elements. */
  lemma SignatureMember(nodes: seq<Node>, s: NodeId, t: string)
    requires WellFormed(nodes) && s < |nodes|
    ensures |Signature(nodes, s)| <= |Iter(nodes, s)|
    ensures t in Signature(nodes, s) <==>
            exists y :: y in Iter(nodes, s) && nodes[y].tag == QuoteTag && HasText(nodes[y].text) &&
                        t == Strip(nodes[y].text.value)
  {
    var ids := Iter(nodes, s);
    QuoteTextsMember(nodes, ids, t);
    QuoteTextsLength(nodes, ids);
    if exists y :: y in ids && nodes[y].tag == QuoteTag && HasText(nodes[y].text) && t == Strip(nodes[y].text.value) {
      var y :| y in ids && nodes[y].tag == QuoteTag && HasText(nodes[y].text) && t == Strip(nodes[y].text.value);
      var m :| 0 <= m < |ids| && ids[m] == y;
    }
  }

  lemma {:induction false} QuoteTextsLength(nodes: seq<Node>, ids: seq<NodeId>)
    requires forall k :: 0 <= k < |ids| ==> ids[k] < |nodes|
    ensures |QuoteTexts(nodes, ids)| <= |ids|
  {
    if ids != [] {
      QuoteTextsLength(nodes, ids[1..]);
    }
  }

  /** The signatures of `ss`, computed once before anything is removed. */
  function Signatures(nodes: seq<Node>, ss: seq<NodeId>): (r: seq<seq<string>>)
    requires WellFormed(nodes) && forall k :: 0 <= k < |ss| ==> ss[k] < |nodes|
    ensures |r| == |ss|
  {
    seq(|ss|, k requires 0 <= k < |ss| => Signature(nodes, ss[k]))
  }

  /** The duplicate test `len(a) == len(b) and all(e1 == e2 for e1, e2 in zip(a, b))`
      is plain equality of the two tuples. */
  function SameSignature(a: seq<string>, b: seq<string>): (r: bool)
    ensures r <==> a == b
  {
    |a| == |b| && forall k :: 0 <= k < |a| && k < |b| ==> a[k] == b[k]
  }

  /** The senses of `entry` that the reducer removes: each one that has an
      earlier sense with the same signature. */
  function Doubled(nodes: seq<Node>, entry: NodeId): set<NodeId>
    requires WellFormed(nodes) && entry < |nodes|
  {
    var ss := FindAll(nodes, entry, SenseTag);
    var sigs := Signatures(nodes, ss);
    set j | 0 <= j < |ss| && DupAt(sigs, j) :: ss[j]
  }

  /** What `rm_doubled_senses(entry)` returns and the tree it leaves. */
  function SensesResult(nodes: seq<Node>, entry: NodeId): (Option<bool>, seq<Node>)
    requires WellFormed(nodes) && entry < |nodes|
  {
    if |FindAll(nodes, entry, SenseTag)| == 1 then (None, nodes)
    else
      (Some(Doubled(nodes, entry) != {}), Deduplicated(nodes, entry))
  }

  /** Sense `j` is the later half of an equal pair among the first `p` compared pairs `ps[..p]`. */
  ghost predicate Marked(sigs: seq<seq<string>>, ps: seq<(nat, nat)>, p: nat, j: nat)
  {
    0 < p <= |ps| &&
    ((ps[p - 1].1 == j && ps[p - 1].0 < |sigs| && j < |sigs| && sigs[ps[p - 1].0] == sigs[j]) || Marked(sigs, ps, p - 1, j))
  }

  lemma {:induction false} MarkedSome(sigs: seq<seq<string>>, ps: seq<(nat, nat)>, p: nat, j: nat)
    requires p <= |ps|
    ensures Marked(sigs, ps, p, j) <==>
            exists q :: 0 <= q < p && ps[q].1 == j && ps[q].0 < |sigs| && j < |sigs| && sigs[ps[q].0] == sigs[j]
  {
    if p > 0 {
      MarkedSome(sigs, ps, p - 1, j);
    }
  }

  /** Once every pair of `itertools.combinations` is compared, sense `j` is
      marked exactly when an earlier sense has its signature. */
  lemma MarkedAllPairs(sigs: seq<seq<string>>, j: nat)
    requires j < |sigs|
    ensures Marked(sigs, Pairs(|sigs|), |Pairs(|sigs|)|, j) <==> DupAt(sigs, j)
  {
    var ps := Pairs(|sigs|);
    MarkedSome(sigs, ps, |ps|, j);
    if DupAt(sigs, j) {
      var i :| 0 <= i < j && sigs[i] == sigs[j];
      PairsMember(|sigs|, i, j);
      var q :| 0 <= q < |ps| && ps[q] == (i, j);
    }
  }

  /** The senses removed after the first `p` comparisons. */
  ghost function Gone(senses: seq<NodeId>, sigs: seq<seq<string>>, ps: seq<(nat, nat)>, p: nat): set<NodeId>
  {
    set j | 0 <= j < |senses| && Marked(sigs, ps, p, j) :: senses[j]
  }

  /** One comparison adds the later sense of the pair when the signatures agree. */
  lemma GoneStep(senses: seq<NodeId>, sigs: seq<seq<string>>, ps: seq<(nat, nat)>, p: nat)
    requires |sigs| == |senses| && p < |ps| && ps[p].0 < |senses| && ps[p].1 < |senses|
    ensures var (i, j) := ps[p];
            Gone(senses, sigs, ps, p + 1) ==
            Gone(senses, sigs, ps, p) + (if sigs[i] == sigs[j] then {senses[j]} else {})
  {
    var (i, j) := ps[p];
    forall y | y in Gone(senses, sigs, ps, p + 1)
      ensures y in Gone(senses, sigs, ps, p) || (sigs[i] == sigs[j] && y == senses[j])
    {
      var k :| 0 <= k < |senses| && Marked(sigs, ps, p + 1, k) && y == senses[k];
    }
  }

  /** One iteration of the comparison loop: the later sense is removed from the
      entry exactly when the signatures agree and it is still there; when it is
      already gone, `list.remove` raises. */
  lemma SenseStep(nodes: seq<Node>, entry: NodeId, senses: seq<NodeId>, sigs: seq<seq<string>>,
                  ps: seq<(nat, nat)>, p: nat, cur: seq<Node>)
    requires WellFormed(nodes) && entry < |nodes| && senses == FindAll(nodes, entry, SenseTag)
    requires |sigs| == |senses| && p < |ps| && ps[p].0 < |senses| && ps[p].1 < |senses|
    requires cur == Pruned(nodes, entry, Gone(senses, sigs, ps, p))
    ensures var i, j := ps[p].0, ps[p].1;
            var g, g' := Gone(senses, sigs, ps, p), Gone(senses, sigs, ps, p + 1);
            var removed := Remove(cur[entry].children, senses[j]);
            if sigs[i] == sigs[j] && removed.Some? then
              g' != {} && cur[entry := cur[entry].(children := removed.value)] == Pruned(nodes, entry, g')
            else
              g' == g
  {
    var i, j := ps[p].0, ps[p].1;
    GoneStep(senses, sigs, ps, p);
    assert senses[j] in senses;
    PrunedRemove(nodes, entry, Gone(senses, sigs, ps, p), senses[j], cur);
    if sigs[i] == sigs[j] && senses[j] in Gone(senses, sigs, ps, p) {
      assert Gone(senses, sigs, ps, p) + {senses[j]} == Gone(senses, sigs, ps, p);
    }
  }

  /** Once every pair is compared, the removed senses are exactly `Doubled`. */
  lemma GoneAllPairs(nodes: seq<Node>, entry: NodeId, senses: seq<NodeId>, sigs: seq<seq<string>>)
    requires WellFormed(nodes) && entry < |nodes|
    requires senses == FindAll(nodes, entry, SenseTag) && sigs == Signatures(nodes, senses)
    ensures Gone(senses, sigs, Pairs(|senses|), |Pairs(|senses|)|) == Doubled(nodes, entry)
  {
    forall j | 0 <= j < |senses| {
      MarkedAllPairs(sigs, j);
    }
  }

  /** `rm_doubled_senses`: compare every pair of senses (in the order of
      `itertools.combinations`) and remove the later one of each equal pair;
      removing an already removed sense raises `ValueError`, which is swallowed. */
  method RemoveDoubledSenses(t: Tree, entry: NodeId) returns (changed: Option<bool>)
    requires t.Valid() && entry < |t.nodes|
    modifies t
    ensures t.Valid()
    ensures (changed, t.nodes) == SensesResult(old(t.nodes), entry)
  {
    var senses := FindAll(t.nodes, entry, SenseTag);
    if |senses| == 1 {
      return None;
    }
    var sigs := Signatures(t.nodes, senses);
    ghost var nodes0 := t.nodes;
    var pairs := Pairs(|senses|);
    var flag := false;
    assert Gone(senses, sigs, pairs, 0) == {};
    WithoutNothing(nodes0[entry].children, {});
    for p := 0 to |pairs|
      invariant t.nodes == Pruned(nodes0, entry, Gone(senses, sigs, pairs, p))
      invariant flag <==> Gone(senses, sigs, pairs, p) != {}
    {
      var i, j := pairs[p].0, pairs[p].1;
      SenseStep(nodes0, entry, senses, sigs, pairs, p, t.nodes);
      if SameSignature(sigs[i], sigs[j]) {
        match Remove(t.nodes[entry].children, senses[j]) {
          case Some(rest) =>
            t.nodes := t.nodes[entry := t.nodes[entry].(children := rest)];
            flag := true;
          case None =>
        }
      }
    }
    GoneAllPairs(nodes0, entry, senses, sigs);
    PrunedWellFormed(nodes0, entry, Doubled(nodes0, entry));
    changed := Some(flag);
  }

  /** `QuoteTexts` reads only the elements it is given. */
  lemma {:induction false} QuoteTextsFrame(nodes: seq<Node>, nodes': seq<Node>, ids: seq<NodeId>)
    requires forall k :: 0 <= k < |ids| ==> ids[k] < |nodes| && ids[k] < |nodes'| && nodes[ids[k]] == nodes'[ids[k]]
    ensures QuoteTexts(nodes, ids) == QuoteTexts(nodes', ids)
  {
    if ids != [] {
      QuoteTextsFrame(nodes, nodes', ids[1..]);
    }
  }

  /** Unlinking children of the entry leaves the signature of every element after it unchanged. */
  lemma SignaturePruned(nodes: seq<Node>, entry: NodeId, gone: set<NodeId>, s: NodeId)
    requires WellFormed(nodes) && entry < s < |nodes|
    ensures WellFormed(Pruned(nodes, entry, gone))
    ensures Signature(Pruned(nodes, entry, gone), s) == Signature(nodes, s)
  {
    var nodes' := Pruned(nodes, entry, gone);
    PrunedWellFormed(nodes, entry, gone);
    IterFrame(nodes, nodes', s);
    QuoteTextsFrame(nodes, nodes', Iter(nodes, s));
  }

  /** The tree `rm_doubled_senses` leaves behind when it compares senses. */
  function Deduplicated(nodes: seq<Node>, entry: NodeId): (r: seq<Node>)
    requires WellFormed(nodes) && entry < |nodes|
    ensures WellFormed(r) && |r| == |nodes|
  {
    PrunedWellFormed(nodes, entry, Doubled(nodes, entry));
    Pruned(nodes, entry, Doubled(nodes, entry))
  }

  /** Sense `j` is among the doubled senses exactly when an earlier sense has its signature. */
  lemma DoubledMember(nodes: seq<Node>, entry: NodeId, j: nat)
    requires WellFormed(nodes) && entry < |nodes|
    requires j < |FindAll(nodes, entry, SenseTag)|
    ensures var ss := FindAll(nodes, entry, SenseTag);
            ss[j] in Doubled(nodes, entry) <==> DupAt(Signatures(nodes, ss), j)
  {
    var ss := FindAll(nodes, entry, SenseTag);
    if ss[j] in Doubled(nodes, entry) {
      var j' :| 0 <= j' < |ss| && DupAt(Signatures(nodes, ss), j') && ss[j'] == ss[j];
      assert j' == j;
    }
  }

  /** Sense `j` survives exactly when no earlier sense has its signature. */
  lemma SenseSurvives(nodes: seq<Node>, entry: NodeId, j: nat)
    requires WellFormed(nodes) && entry < |nodes|
    requires j < |FindAll(nodes, entry, SenseTag)|
    ensures var ss := FindAll(nodes, entry, SenseTag);
            var sigs := Signatures(nodes, ss);
            ss[j] in FindAll(Deduplicated(nodes, entry), entry, SenseTag) <==>
            forall i :: 0 <= i < j ==> sigs[i] != sigs[j]
  {
    var ss := FindAll(nodes, entry, SenseTag);
    FindAllPruned(nodes, entry, Doubled(nodes, entry), SenseTag);
    WithoutMember(ss, Doubled(nodes, entry), ss[j]);
    DoubledMember(nodes, entry, j);
  }

  /** Every removed sense has an earlier surviving sense with the same signature. */
  lemma RemovedSenseHasTwin(nodes: seq<Node>, entry: NodeId, j: nat)
    requires WellFormed(nodes) && entry < |nodes|
    requires j < |FindAll(nodes, entry, SenseTag)|
    requires FindAll(nodes, entry, SenseTag)[j] !in FindAll(Deduplicated(nodes, entry), entry, SenseTag)
    ensures var ss := FindAll(nodes, entry, SenseTag);
            var sigs := Signatures(nodes, ss);
            exists i :: 0 <= i < j && ss[i] in FindAll(Deduplicated(nodes, entry), entry, SenseTag) && sigs[i] == sigs[j]
  {
    var sigs := Signatures(nodes, FindAll(nodes, entry, SenseTag));
    SenseSurvives(nodes, entry, j);
    var i := FirstEqual(sigs, j, 0);
    SenseSurvives(nodes, entry, i);
  }

  /** The entry keeps every child except the doubled senses, in the old order;
      in particular every child that is not a sense stays. */
  lemma SensesKept(nodes: seq<Node>, entry: NodeId)
    requires WellFormed(nodes) && entry < |nodes|
    ensures var nodes' := Deduplicated(nodes, entry);
            FindAll(nodes', entry, SenseTag) == Without(FindAll(nodes, entry, SenseTag), Doubled(nodes, entry)) &&
            forall c :: c in nodes[entry].children && nodes[c].tag != SenseTag ==> c in nodes'[entry].children
  {
    FindAllPruned(nodes, entry, Doubled(nodes, entry), SenseTag);
    WithoutMembers(nodes[entry].children, Doubled(nodes, entry));
  }

  /** No two surviving senses share a signature, measured in the new tree. */
  lemma SurvivorsDistinct(nodes: seq<Node>, entry: NodeId, x: NodeId, y: NodeId)
    requires WellFormed(nodes) && entry < |nodes|
    requires var ss' := FindAll(Deduplicated(nodes, entry), entry, SenseTag);
             x in ss' && y in ss' && x != y
    ensures Signature(Deduplicated(nodes, entry), x) != Signature(Deduplicated(nodes, entry), y)
  {
    var ss := FindAll(nodes, entry, SenseTag);
    var sigs := Signatures(nodes, ss);
    var gone := Doubled(nodes, entry);
    SensesKept(nodes, entry);
    WithoutMember(ss, gone, x);
    WithoutMember(ss, gone, y);
    SignaturePruned(nodes, entry, gone, x);
    SignaturePruned(nodes, entry, gone, y);
    var a :| 0 <= a < |ss| && ss[a] == x;
    var b :| 0 <= b < |ss| && ss[b] == y;
    SenseSurvives(nodes, entry, a);
    SenseSurvives(nodes, entry, b);
    assert sigs[a] != sigs[b] by {
      if a < b {} else {}
    }
  }

  /** Without doubled senses the tree is left as it is. */
  lemma NothingDoubled(nodes: seq<Node>, entry: NodeId)
    requires WellFormed(nodes) && entry < |nodes|
    requires Doubled(nodes, entry) == {}
    ensures Deduplicated(nodes, entry) == nodes
  {
    WithoutNothing(nodes[entry].children, {});
  }

  /** `rm_doubled_senses` returns a truthy value exactly when it changed the tree;
      with exactly one sense it returns `None` and changes nothing. */
  lemma SensesFlag(nodes: seq<Node>, entry: NodeId)
    requires WellFormed(nodes) && entry < |nodes|
    ensures var (r, nodes') := SensesResult(nodes, entry);
            (Truthy(r) <==> nodes' != nodes) &&
            (r.None? <==> |FindAll(nodes, entry, SenseTag)| == 1)
  {
    if |FindAll(nodes, entry, SenseTag)| != 1 {
      var gone := Doubled(nodes, entry);
      if gone == {} {
        NothingDoubled(nodes, entry);
      } else {
        var x :| x in gone;
        assert x in FindAll(nodes, entry, SenseTag);
        WithoutMember(nodes[entry].children, gone, x);
        assert x !in Deduplicated(nodes, entry)[entry].children;
      }
    }
  }

  /** Running `rm_doubled_senses` a second time finds nothing left to remove. */
  lemma SensesIdempotent(nodes: seq<Node>, entry: NodeId)
    requires WellFormed(nodes) && entry < |nodes|
    ensures WellFormed(SensesResult(nodes, entry).1)
    ensures var nodes' := SensesResult(nodes, entry).1;
            var (r, nodes'') := SensesResult(nodes', entry);
            nodes'' == nodes' && !Truthy(r)
  {
    var ss := FindAll(nodes, entry, SenseTag);
    if |ss| != 1 {
      var n1 := Deduplicated(nodes, entry);
      var ss' := FindAll(n1, entry, SenseTag);
      var sigs' := Signatures(n1, ss');
      forall j | 0 <= j < |ss'|
        ensures !DupAt(sigs', j)
      {
        forall i | 0 <= i < j
          ensures sigs'[i] != sigs'[j]
        {
          SurvivorsDistinct(nodes, entry, ss'[i], ss'[j]);
        }
      }
      assert Doubled(n1, entry) == {};
      NothingDoubled(n1, entry);
      SensesFlag(n1, entry);
    }
  }
}
