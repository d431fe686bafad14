/** `rm_empty_nodes`: two breadth-first passes over an entry that strip the
    manual numbering `n` from senses and unlink elements without text and
    without children. */
module EmptyNodes {
  import opened Base
  import opened Text
  import opened Etree

  /** `node.text is None or node.text.strip() == ''`. */
  predicate Blank(text: Option<string>)
  {
    text.None? || Strip(text.value) == ""
  }

  /** The removal test: blank text and `len(node.getchildren()) == 0`. */
  predicate BlankLeaf(n: Node)
  {
    Blank(n.text) && |n.children| == 0
  }

  /** `node.tag.endswith('sense') and node.get('n')`: a sense whose `n` is present and not empty. */
  predicate Numbered(n: Node)
  {
    EndsWith(n.tag, "sense") && "n" in n.attrib && n.attrib["n"] != ""
  }

  /** `del node.attrib['n']` on a numbered sense; other elements are left alone. */
  function Unnumbered(n: Node): Node
  {
    if Numbered(n) then n.(attrib := n.attrib - {"n"}) else n
  }

  /** The tree in which the elements of `s` have lost their numbering. */
  function StripAll(nodes: seq<Node>, s: set<NodeId>): (r: seq<Node>)
    ensures |r| == |nodes|
  {
    seq(|nodes|, k requires 0 <= k < |nodes| => if k in s then Unnumbered(nodes[k]) else nodes[k])
  }

  /** The elements a pass visits: the entry and all its descendants. */
  function Visited(nodes: seq<Node>, entry: NodeId): set<NodeId>
    requires WellFormed(nodes) && entry < |nodes|
  {
    set y | y in Iter(nodes, entry)
  }

  /** Whether a numbered sense lies among `s`. */
  predicate NumberedIn(nodes: seq<Node>, s: set<NodeId>)
  {
    exists y :: y in s && y < |nodes| && Numbered(nodes[y])
  }

  lemma NumberedInStep(nodes: seq<Node>, s: set<NodeId>, y: NodeId)
    requires y < |nodes|
    ensures NumberedIn(nodes, s + {y}) <==> NumberedIn(nodes, s) || Numbered(nodes[y])
  {
  }

  /** The blank leaves below the entry among `s`. */
  function LeavesIn(nodes: seq<Node>, entry: NodeId, s: set<NodeId>): set<NodeId>
  {
    set y | y in s && y != entry && y < |nodes| && BlankLeaf(nodes[y])
  }

  lemma LeavesInStep(nodes: seq<Node>, entry: NodeId, s: set<NodeId>, y: NodeId)
    requires y < |nodes|
    ensures y != entry && BlankLeaf(nodes[y]) ==> LeavesIn(nodes, entry, s + {y}) == LeavesIn(nodes, entry, s) + {y}
    ensures !(y != entry && BlankLeaf(nodes[y])) ==> LeavesIn(nodes, entry, s + {y}) == LeavesIn(nodes, entry, s)
  {
  }

  /** Stripping numbers changes no children, so the tree stays a tree. */
  lemma StripAllWellFormed(nodes: seq<Node>, s: set<NodeId>)
    requires WellFormed(nodes)
    ensures WellFormed(StripAll(nodes, s))
  {
    var r := StripAll(nodes, s);
    assert forall k :: 0 <= k < |nodes| ==> r[k].children == nodes[k].children;
  }

  /** One pass of the `for _ in range(0, 2)` loop, as a whole: raise
      `AttributeError` when the entry itself is a blank leaf (its parent is
      `None`); otherwise strip the numbering of every visited element, unlink
      every blank leaf below the entry from its parent, and report whether
      either happened. */
  function Pass(nodes: seq<Node>, entry: NodeId): (r: Result<(bool, seq<Node>)>)
    requires WellFormed(nodes) && entry < |nodes|
    ensures r.Ok? ==> WellFormed(r.value.1) && |r.value.1| == |nodes|
  {
    if BlankLeaf(nodes[entry]) then Err(AttributeError)
    else
      var vis := Visited(nodes, entry);
      var gone := LeavesIn(nodes, entry, vis);
      StripAllWellFormed(nodes, vis);
      PrunedAllWellFormed(StripAll(nodes, vis), gone);
      Ok((NumberedIn(nodes, vis) || gone != {}, PrunedAll(StripAll(nodes, vis), gone)))
  }

  /** The first `k` turns of `for _ in range(0, 2)`: the flag set by any of
      them and the tree they leave, or the exception one of them raises. */
  function Passes(nodes: seq<Node>, entry: NodeId, k: nat): (r: Result<(bool, seq<Node>)>)
    requires WellFormed(nodes) && entry < |nodes|
    ensures r.Ok? ==> WellFormed(r.value.1) && |r.value.1| == |nodes|
  {
    if k == 0 then Ok((false, nodes))
    else
      match Passes(nodes, entry, k - 1)
      case Err(e) => Err(e)
      case Ok((c, n)) =>
        match Pass(n, entry)
        case Err(e) => Err(e)
        case Ok((c', n')) => Ok((c || c', n'))
  }

  /** An exception ends the passes: later turns do not run. */
  lemma PassesErr(nodes: seq<Node>, entry: NodeId, k: nat)
    requires WellFormed(nodes) && entry < |nodes|
    requires Passes(nodes, entry, k).Err?
    ensures Passes(nodes, entry, k + 1) == Passes(nodes, entry, k)
  {
  }

  /** What `rm_empty_nodes(entry)` returns and the tree it leaves, or the
      exception it raises. */
  function EmptyNodesResult(nodes: seq<Node>, entry: NodeId): Result<(bool, seq<Node>)>
    requires WellFormed(nodes) && entry < |nodes|
  {
    Passes(nodes, entry, 2)
  }

  // ---------------------------------------------------------------------
  // The breadth-first walk

  /** Visiting `y` first strips its numbering, on the tree as it stands. */
  lemma VisitStep(nodes0: seq<Node>, done: set<NodeId>, gone: set<NodeId>, y: NodeId)
    requires y < |nodes0| && y !in done
    ensures var cur := PrunedAll(StripAll(nodes0, done), gone);
            var cur' := if Numbered(cur[y]) then cur[y := cur[y].(attrib := cur[y].attrib - {"n"})] else cur;
            (Numbered(cur[y]) <==> Numbered(nodes0[y])) &&
            cur' == PrunedAll(StripAll(nodes0, done + {y}), gone) &&
            cur'[y].text == nodes0[y].text && cur'[y].children == Without(nodes0[y].children, gone)
  {
    var cur := PrunedAll(StripAll(nodes0, done), gone);
    var next := PrunedAll(StripAll(nodes0, done + {y}), gone);
    var cur' := if Numbered(cur[y]) then cur[y := cur[y].(attrib := cur[y].attrib - {"n"})] else cur;
    forall k | 0 <= k < |nodes0|
      ensures cur'[k] == next[k]
    {
    }
  }

  /** The worklist after element `y` queues its children `cs`. */
  function Enqueue(work: seq<(Option<NodeId>, NodeId)>, y: NodeId, cs: seq<NodeId>): (r: seq<(Option<NodeId>, NodeId)>)
    ensures |r| == |work| + |cs|
    ensures forall k :: 0 <= k < |work| ==> r[k] == work[k]
    ensures forall k :: |work| <= k < |r| ==> r[k] == (Some(y), cs[k - |work|])
  {
    work + seq(|cs|, k requires 0 <= k < |cs| => (Some(y), cs[k]))
  }

  /** The positions of the newly queued children, from `start` on. */
  ghost function Placed(pos: map<NodeId, nat>, start: nat, cs: seq<NodeId>): (r: map<NodeId, nat>)
    requires NoDup(cs)
    ensures forall y :: y in r <==> y in pos || y in cs
    ensures forall k :: 0 <= k < |cs| ==> r[cs[k]] == start + k
    ensures forall y :: y in pos && y !in cs ==> r[y] == pos[y]
  {
    pos + map k | 0 <= k < |cs| :: cs[k] := start + k
  }

  /** `pos` gives every worklist item's element its (unique) place. */
  ghost predicate Indexed(work: seq<(Option<NodeId>, NodeId)>, pos: map<NodeId, nat>)
  {
    (forall k :: 0 <= k < |work| ==> work[k].1 in pos && pos[work[k].1] == k) &&
    (forall y :: y in pos ==> pos[y] < |work| && work[pos[y]].1 == y)
  }

  lemma IndexedEnqueue(work: seq<(Option<NodeId>, NodeId)>, pos: map<NodeId, nat>, y: NodeId, cs: seq<NodeId>)
    requires Indexed(work, pos) && NoDup(cs) && forall c :: c in cs ==> c !in pos
    ensures Indexed(Enqueue(work, y, cs), Placed(pos, |work|, cs))
  {
    PlacedItems(work, pos, y, cs);
    PlacedKeys(work, pos, y, cs);
  }

  /** Every item of the longer worklist finds its own place. */
  lemma PlacedItems(work: seq<(Option<NodeId>, NodeId)>, pos: map<NodeId, nat>, y: NodeId, cs: seq<NodeId>)
    requires Indexed(work, pos) && NoDup(cs) && forall c :: c in cs ==> c !in pos
    ensures var w, p := Enqueue(work, y, cs), Placed(pos, |work|, cs);
            forall k :: 0 <= k < |w| ==> w[k].1 in p && p[w[k].1] == k
  {
    var w := Enqueue(work, y, cs);
    var p := Placed(pos, |work|, cs);
    forall k | 0 <= k < |w|
      ensures w[k].1 in p && p[w[k].1] == k
    {
      if k >= |work| {
        assert w[k].1 == cs[k - |work|];
      }
    }
  }

  /** Every place of the larger map holds its element. */
  lemma PlacedKeys(work: seq<(Option<NodeId>, NodeId)>, pos: map<NodeId, nat>, y: NodeId, cs: seq<NodeId>)
    requires Indexed(work, pos) && NoDup(cs) && forall c :: c in cs ==> c !in pos
    ensures var w, p := Enqueue(work, y, cs), Placed(pos, |work|, cs);
            forall x :: x in p ==> p[x] < |w| && w[p[x]].1 == x
  {
    var w := Enqueue(work, y, cs);
    var p := Placed(pos, |work|, cs);
    forall x | x in p
      ensures p[x] < |w| && w[p[x]].1 == x
    {
      if x in cs {
        var k :| 0 <= k < |cs| && cs[k] == x;
        assert w[|work| + k].1 == x;
      }
    }
  }


  /** Every queued item is an element of the subtree, and every item but the
      first is a child of the parent recorded with it. */
  ghost predicate Parented(nodes0: seq<Node>, entry: NodeId, work: seq<(Option<NodeId>, NodeId)>, pos: map<NodeId, nat>)
    requires WellFormed(nodes0) && entry < |nodes0|
  {
    1 <= |work| && work[0] == (None, entry) &&
    pos.Keys <= Visited(nodes0, entry) &&
    (forall k :: 0 < k < |work| ==>
       work[k].0.Some? && work[k].0.value < |nodes0| && work[k].1 in nodes0[work[k].0.value].children)
  }

  /** The first `i` items are visited, and an element is queued exactly when
      its parent has been visited. */
  ghost predicate Frontier(nodes0: seq<Node>, entry: NodeId, i: nat, pos: map<NodeId, nat>, done: set<NodeId>)
  {
    (forall y :: y in done <==> y in pos && pos[y] < i) &&
    (forall p, k :: p in done && 0 <= p < |nodes0| && 0 <= k < |nodes0[p].children| ==> nodes0[p].children[k] in pos) &&
    (forall p, k ::
       0 <= p < |nodes0| && 0 <= k < |nodes0[p].children| && nodes0[p].children[k] in pos && nodes0[p].children[k] != entry
       ==> p in done)
  }

  /** The bookkeeping of the walk after `i` items of `work`. */
  ghost predicate Queue(nodes0: seq<Node>, entry: NodeId, work: seq<(Option<NodeId>, NodeId)>, i: nat,
                        pos: map<NodeId, nat>, done: set<NodeId>)
    requires WellFormed(nodes0) && entry < |nodes0|
  {
    i <= |work| && Indexed(work, pos) && Parented(nodes0, entry, work, pos) && Frontier(nodes0, entry, i, pos, done)
  }

  lemma QueueInit(nodes0: seq<Node>, entry: NodeId)
    requires WellFormed(nodes0) && entry < |nodes0|
    ensures Queue(nodes0, entry, [(None, entry)], 0, map[entry := 0], {})
  {
  }

  /** What the walk knows about the item it takes next. */
  lemma QueueVisit(nodes0: seq<Node>, entry: NodeId, work: seq<(Option<NodeId>, NodeId)>, i: nat,
                   pos: map<NodeId, nat>, done: set<NodeId>)
    requires WellFormed(nodes0) && entry < |nodes0|
    requires Queue(nodes0, entry, work, i, pos, done) && i < |work|
    ensures var (parent, y) := work[i];
            y < |nodes0| && y in Iter(nodes0, entry) && y !in done &&
            (parent.None? <==> y == entry) &&
            (parent.Some? ==> parent.value < |nodes0| && y in nodes0[parent.value].children) &&
            (forall c :: c in nodes0[y].children ==> c !in pos)
  {
  }

  /** A removed element queues nothing. */
  lemma QueueLeaf(nodes0: seq<Node>, entry: NodeId, work: seq<(Option<NodeId>, NodeId)>, i: nat,
                  pos: map<NodeId, nat>, done: set<NodeId>)
    requires WellFormed(nodes0) && entry < |nodes0|
    requires Queue(nodes0, entry, work, i, pos, done) && i < |work|
    requires work[i].1 < |nodes0| && nodes0[work[i].1].children == []
    ensures Queue(nodes0, entry, work, i + 1, pos, done + {work[i].1})
  {
  }

  /** A kept element queues its children, in order, behind everything else. */
  lemma QueueExpand(nodes0: seq<Node>, entry: NodeId, work: seq<(Option<NodeId>, NodeId)>, i: nat,
                    pos: map<NodeId, nat>, done: set<NodeId>)
    requires WellFormed(nodes0) && entry < |nodes0|
    requires Queue(nodes0, entry, work, i, pos, done) && i < |work| && work[i].1 < |nodes0|
    ensures var y := work[i].1;
            var cs := nodes0[y].children;
            Queue(nodes0, entry, Enqueue(work, y, cs), i + 1, Placed(pos, |work|, cs), done + {y})
  {
    var y := work[i].1;
    var cs := nodes0[y].children;
    var w := Enqueue(work, y, cs);
    var p := Placed(pos, |work|, cs);
    var done': set<NodeId> := done + {y};
    assert y in Iter(nodes0, entry) && y !in done && (forall c :: c in cs ==> c !in pos) by {
      QueueVisit(nodes0, entry, work, i, pos, done);
    }
    assert Indexed(w, p) by {
      IndexedEnqueue(work, pos, y, cs);
    }
    assert Parented(nodes0, entry, w, p) by {
      ParentedEnqueue(nodes0, entry, work, pos, y);
    }
    assert Frontier(nodes0, entry, i + 1, p, done') by {
      FrontierExpand(nodes0, entry, i, pos, done, y, |work|);
    }
  }


  lemma ParentedEnqueue(nodes0: seq<Node>, entry: NodeId, work: seq<(Option<NodeId>, NodeId)>,
                        pos: map<NodeId, nat>, y: NodeId)
    requires WellFormed(nodes0) && entry < |nodes0| && y < |nodes0|
    requires Parented(nodes0, entry, work, pos) && y in Iter(nodes0, entry)
    ensures var cs := nodes0[y].children;
            Parented(nodes0, entry, Enqueue(work, y, cs), Placed(pos, |work|, cs))
  {
    var cs := nodes0[y].children;
    var w := Enqueue(work, y, cs);
    assert forall k :: 0 < k < |w| ==>
             w[k].0.Some? && w[k].0.value < |nodes0| && w[k].1 in nodes0[w[k].0.value].children by {
      forall k | |work| <= k < |w|
        ensures w[k].0 == Some(y) && w[k].1 in cs
      {
        assert w[k] == (Some(y), cs[k - |work|]);
      }
    }
    assert forall c :: c in Placed(pos, |work|, cs) ==> c in Iter(nodes0, entry) by {
      forall c | c in cs
        ensures c in Iter(nodes0, entry)
      {
        IterClosed(nodes0, entry, y, c);
      }
    }
  }

  lemma FrontierExpand(nodes0: seq<Node>, entry: NodeId, i: nat, pos: map<NodeId, nat>, done: set<NodeId>,
                       y: NodeId, start: nat)
    requires WellFormed(nodes0) && y < |nodes0| && entry <= y
    requires Frontier(nodes0, entry, i, pos, done) && y in pos && pos[y] == i && i < start
    requires forall x :: x in pos && pos[x] == i ==> x == y
    requires forall x :: x in pos ==> pos[x] < start
    requires forall c :: c in nodes0[y].children ==> c !in pos
    ensures Frontier(nodes0, entry, i + 1, Placed(pos, start, nodes0[y].children), done + {y})
  {
  }

  /** A walk that has run out of items has visited the whole subtree. */
  lemma QueueDone(nodes0: seq<Node>, entry: NodeId, work: seq<(Option<NodeId>, NodeId)>,
                  pos: map<NodeId, nat>, done: set<NodeId>)
    requires WellFormed(nodes0) && entry < |nodes0|
    requires Queue(nodes0, entry, work, |work|, pos, done)
    ensures done == Visited(nodes0, entry)
  {
    forall y | y in Iter(nodes0, entry)
      ensures y in done
    {
      IterLeast(nodes0, entry, done, y);
    }
  }

  lemma StripNothing(nodes: seq<Node>)
    ensures StripAll(nodes, {}) == nodes
  {
  }

  /** The tree a walk leaves is a tree. */
  lemma StrippedWellFormed(nodes0: seq<Node>, done: set<NodeId>, gone: set<NodeId>)
    requires WellFormed(nodes0)
    ensures WellFormed(PrunedAll(StripAll(nodes0, done), gone))
  {
    StripAllWellFormed(nodes0, done);
    PrunedAllWellFormed(StripAll(nodes0, done), gone);
  }

  /** `cur` after visiting `y` stripped its numbering. */
  function Unnumber(cur: seq<Node>, y: NodeId): (r: seq<Node>)
    requires y < |cur|
  {
    if Numbered(cur[y]) then cur[y := cur[y].(attrib := cur[y].attrib - {"n"})] else cur
  }

  /** What a pass has done to the tree after visiting `done`: `cur` has lost
      the numbering of every visited element and every visited blank leaf
      below the entry, and `changed` says whether any of that happened. */
  ghost predicate Trace(nodes0: seq<Node>, entry: NodeId, done: set<NodeId>, gone: set<NodeId>,
                        cur: seq<Node>, changed: bool)
  {
    gone == LeavesIn(nodes0, entry, done) &&
    cur == PrunedAll(StripAll(nodes0, done), gone) &&
    (changed <==> NumberedIn(nodes0, done) || gone != {})
  }

  /** The loop invariant of a pass after `i` items of `work`. */
  ghost predicate Walk(nodes0: seq<Node>, entry: NodeId, work: seq<(Option<NodeId>, NodeId)>, i: nat,
                       pos: map<NodeId, nat>, done: set<NodeId>, gone: set<NodeId>, cur: seq<Node>, changed: bool)
    requires WellFormed(nodes0) && entry < |nodes0|
  {
    Queue(nodes0, entry, work, i, pos, done) &&
    Trace(nodes0, entry, done, gone, cur, changed) &&
    (i > 0 ==> !BlankLeaf(nodes0[entry]))
  }

  /** Unlinking a blank leaf `y` below the entry from its parent `p`. */
  lemma TraceUnlink(nodes0: seq<Node>, entry: NodeId, done: set<NodeId>, gone: set<NodeId>,
                    cur: seq<Node>, changed: bool, p: NodeId, y: NodeId)
    requires WellFormed(nodes0) && p < |nodes0| && y < |nodes0| && y in nodes0[p].children
    requires y !in done && y != entry && BlankLeaf(nodes0[y])
    requires Trace(nodes0, entry, done, gone, cur, changed)
    ensures var cur' := Unnumber(cur, y);
            Remove(cur'[p].children, y).Some? &&
            Trace(nodes0, entry, done + {y}, gone + {y}, cur'[p := cur'[p].(children := Remove(cur'[p].children, y).value)], true)
  {
    var done': set<NodeId> := done + {y};
    var gone': set<NodeId> := gone + {y};
    var cur' := Unnumber(cur, y);
    assert cur' == PrunedAll(StripAll(nodes0, done'), gone) by {
      VisitStep(nodes0, done, gone, y);
    }
    assert gone' == LeavesIn(nodes0, entry, done') by {
      LeavesInStep(nodes0, entry, done, y);
    }
    assert Remove(cur'[p].children, y).Some? &&
           cur'[p := cur'[p].(children := Remove(cur'[p].children, y).value)] == PrunedAll(StripAll(nodes0, done'), gone') by {
      StripAllWellFormed(nodes0, done');
      PrunedAllRemove(StripAll(nodes0, done'), gone, p, y, cur');
    }
  }

  /** Visiting an element `y` that stays. */
  lemma TraceKeep(nodes0: seq<Node>, entry: NodeId, done: set<NodeId>, gone: set<NodeId>,
                  cur: seq<Node>, changed: bool, y: NodeId)
    requires y < |nodes0| && y !in done && !(y != entry && BlankLeaf(nodes0[y]))
    requires Trace(nodes0, entry, done, gone, cur, changed)
    ensures Trace(nodes0, entry, done + {y}, gone, Unnumber(cur, y), changed || Numbered(cur[y]))
  {
    var done': set<NodeId> := done + {y};
    assert Unnumber(cur, y) == PrunedAll(StripAll(nodes0, done'), gone) && (Numbered(cur[y]) <==> Numbered(nodes0[y])) by {
      VisitStep(nodes0, done, gone, y);
    }
    assert NumberedIn(nodes0, done') <==> NumberedIn(nodes0, done) || Numbered(nodes0[y]) by {
      NumberedInStep(nodes0, done, y);
    }
    assert gone == LeavesIn(nodes0, entry, done') by {
      LeavesInStep(nodes0, entry, done, y);
    }
  }

  lemma WalkInit(nodes0: seq<Node>, entry: NodeId)
    requires WellFormed(nodes0) && entry < |nodes0|
    ensures Walk(nodes0, entry, [(None, entry)], 0, map[entry := 0], {}, {}, nodes0, false)
  {
    QueueInit(nodes0, entry);
    StripNothing(nodes0);
    PrunedAllNothing(nodes0);
  }

  /** The item taken next is an unvisited element of the subtree, still
      carrying its original text and children. */
  lemma WalkVisit(nodes0: seq<Node>, entry: NodeId, work: seq<(Option<NodeId>, NodeId)>, i: nat,
                  pos: map<NodeId, nat>, done: set<NodeId>, gone: set<NodeId>, cur: seq<Node>, changed: bool)
    requires WellFormed(nodes0) && entry < |nodes0|
    requires Walk(nodes0, entry, work, i, pos, done, gone, cur, changed) && i < |work|
    ensures var y := work[i].1;
            y < |cur| == |nodes0| && y in Visited(nodes0, entry) && y !in done &&
            (work[i].0.None? <==> y == entry) &&
            (BlankLeaf(Unnumber(cur, y)[y]) <==> BlankLeaf(nodes0[y])) &&
            Unnumber(cur, y)[y].children == nodes0[y].children
  {
    var y := work[i].1;
    QueueVisit(nodes0, entry, work, i, pos, done);
    VisitStep(nodes0, done, gone, y);
    WithoutNothing(nodes0[y].children, gone);
  }

  /** A blank leaf without a parent is the entry itself: the pass raises. */
  lemma WalkAbort(nodes0: seq<Node>, entry: NodeId, work: seq<(Option<NodeId>, NodeId)>, i: nat,
                  pos: map<NodeId, nat>, done: set<NodeId>, gone: set<NodeId>, cur: seq<Node>, changed: bool)
    requires WellFormed(nodes0) && entry < |nodes0|
    requires Walk(nodes0, entry, work, i, pos, done, gone, cur, changed) && i < |work|
    requires work[i].0.None? && work[i].1 < |cur| && BlankLeaf(Unnumber(cur, work[i].1)[work[i].1])
    ensures Pass(nodes0, entry) == Err(AttributeError)
    ensures WellFormed(Unnumber(cur, work[i].1))
  {
    WalkVisit(nodes0, entry, work, i, pos, done, gone, cur, changed);
    VisitStep(nodes0, done, gone, work[i].1);
    StrippedWellFormed(nodes0, done + {work[i].1}, gone);
  }

  /** A blank leaf below the entry is still listed by its parent, and
      unlinking it keeps the invariant. */
  lemma WalkUnlink(nodes0: seq<Node>, entry: NodeId, work: seq<(Option<NodeId>, NodeId)>, i: nat,
                   pos: map<NodeId, nat>, done: set<NodeId>, gone: set<NodeId>, cur: seq<Node>, changed: bool)
    requires WellFormed(nodes0) && entry < |nodes0|
    requires Walk(nodes0, entry, work, i, pos, done, gone, cur, changed) && i < |work|
    requires work[i].0.Some? && work[i].1 < |cur| && BlankLeaf(Unnumber(cur, work[i].1)[work[i].1])
    ensures var (p, y) := (work[i].0.value, work[i].1);
            var cur' := Unnumber(cur, y);
            p < |cur'| && Remove(cur'[p].children, y).Some? &&
            Walk(nodes0, entry, work, i + 1, pos, done + {y}, gone + {y},
                 cur'[p := cur'[p].(children := Remove(cur'[p].children, y).value)], true)
  {
    var (p, y) := (work[i].0.value, work[i].1);
    assert y < |nodes0| && y !in done && y != entry && p < |nodes0| && y in nodes0[p].children &&
           BlankLeaf(nodes0[y]) && nodes0[y].children == [] by {
      WalkVisit(nodes0, entry, work, i, pos, done, gone, cur, changed);
      QueueVisit(nodes0, entry, work, i, pos, done);
    }
    QueueLeaf(nodes0, entry, work, i, pos, done);
    TraceUnlink(nodes0, entry, done, gone, cur, changed, p, y);
  }

  /** An element that stays queues its children. */
  lemma WalkExpand(nodes0: seq<Node>, entry: NodeId, work: seq<(Option<NodeId>, NodeId)>, i: nat,
                   pos: map<NodeId, nat>, done: set<NodeId>, gone: set<NodeId>, cur: seq<Node>, changed: bool)
    requires WellFormed(nodes0) && entry < |nodes0|
    requires Walk(nodes0, entry, work, i, pos, done, gone, cur, changed) && i < |work|
    requires work[i].1 < |cur| && !BlankLeaf(Unnumber(cur, work[i].1)[work[i].1])
    ensures var y := work[i].1;
            var cs := nodes0[y].children;
            Unnumber(cur, y)[y].children == cs &&
            Walk(nodes0, entry, Enqueue(work, y, cs), i + 1, Placed(pos, |work|, cs), done + {y}, gone,
                 Unnumber(cur, y), changed || Numbered(cur[y]))
  {
    var y := work[i].1;
    assert y < |nodes0| && y !in done && (y == entry <==> i == 0) &&
           Unnumber(cur, y)[y].children == nodes0[y].children && !BlankLeaf(nodes0[y]) by {
      WalkVisit(nodes0, entry, work, i, pos, done, gone, cur, changed);
    }
    QueueExpand(nodes0, entry, work, i, pos, done);
    TraceKeep(nodes0, entry, done, gone, cur, changed, y);
  }

  /** A walk that has run out of items has made the whole pass. */
  lemma WalkDone(nodes0: seq<Node>, entry: NodeId, work: seq<(Option<NodeId>, NodeId)>,
                 pos: map<NodeId, nat>, done: set<NodeId>, gone: set<NodeId>, cur: seq<Node>, changed: bool)
    requires WellFormed(nodes0) && entry < |nodes0|
    requires Walk(nodes0, entry, work, |work|, pos, done, gone, cur, changed)
    ensures Pass(nodes0, entry) == Ok((changed, cur)) && WellFormed(cur)
  {
    QueueDone(nodes0, entry, work, pos, done);
    StrippedWellFormed(nodes0, done, gone);
  }

  /** `del node.attrib['n']` when `node` is a numbered sense; says whether it was. */
  method StripNumber(t: Tree, y: NodeId) returns (stripped: bool)
    requires y < |t.nodes|
    modifies t
    ensures stripped == Numbered(old(t.nodes[y])) && t.nodes == Unnumber(old(t.nodes), y)
  {
    stripped := Numbered(t.nodes[y]);
    if stripped {
      t.nodes := t.nodes[y := t.nodes[y].(attrib := t.nodes[y].attrib - {"n"})];
    }
  }

  /** One turn of the loop `for parent, node in nodes`: strip the
      numbering of `node`, then unlink it from `parent` if it is a blank leaf
      (failing when there is no parent) or queue its children otherwise. */
  method VisitItem(t: Tree, entry: NodeId, work: seq<(Option<NodeId>, NodeId)>, i: nat,
                   ghost nodes0: seq<Node>, ghost pos: map<NodeId, nat>, ghost done: set<NodeId>,
                   ghost gone: set<NodeId>, ghost changed: bool)
    returns (aborted: bool, work': seq<(Option<NodeId>, NodeId)>, touched: bool,
             ghost pos': map<NodeId, nat>, ghost done': set<NodeId>, ghost gone': set<NodeId>)
    requires WellFormed(nodes0) && entry < |nodes0| && i < |work|
    requires Walk(nodes0, entry, work, i, pos, done, gone, t.nodes, changed)
    modifies t
    ensures aborted ==> Pass(nodes0, entry) == Err(AttributeError) && t.Valid()
    ensures !aborted ==> Walk(nodes0, entry, work', i + 1, pos', done', gone', t.nodes, changed || touched)
    ensures work[i].1 in Visited(nodes0, entry) && work[i].1 !in done && done' == done + {work[i].1}
  {
    var parent, node := work[i].0, work[i].1;
    ghost var cur := t.nodes;
    WalkVisit(nodes0, entry, work, i, pos, done, gone, cur, changed);
    touched := StripNumber(t, node);
    done' := done + {node};
    if Blank(t.nodes[node].text) && |t.nodes[node].children| == 0 {
      match parent
      case None =>
        WalkAbort(nodes0, entry, work, i, pos, done, gone, cur, changed);
        return true, work, touched, pos, done', gone;
      case Some(p) =>
        WalkUnlink(nodes0, entry, work, i, pos, done, gone, cur, changed);
        match Remove(t.nodes[p].children, node)
        case None =>
          assert false;
        case Some(rest) =>
          t.nodes := t.nodes[p := t.nodes[p].(children := rest)];
          return false, work, true, pos, done', gone + {node};
    } else {
      var cs := t.nodes[node].children;
      WalkExpand(nodes0, entry, work, i, pos, done, gone, cur, changed);
      return false, Enqueue(work, node, cs), touched, Placed(pos, |work|, cs), done', gone;
    }
  }

  /** One pass over the tree `t`: the worklist `work` of (parent, element)
      pairs starts with `(None, entry)` and grows at its end while it is
      walked, so elements are visited breadth first. */
  method EmptyPass(t: Tree, entry: NodeId) returns (r: Result<bool>)
    requires t.Valid() && entry < |t.nodes|
    modifies t
    ensures t.Valid()
    ensures var res := Pass(old(t.nodes), entry);
            match res
            case Err(e) => r == Err(e)
            case Ok((changed, after)) => r == Ok(changed) && t.nodes == after
  {
    ghost var nodes0 := t.nodes;
    ghost var pos: map<NodeId, nat> := map[entry := 0];
    ghost var done: set<NodeId> := {};
    ghost var gone: set<NodeId> := {};
    var work: seq<(Option<NodeId>, NodeId)> := [(None, entry)];
    var changed := false;
    var i := 0;
    WalkInit(nodes0, entry);
    while i < |work|
      invariant Walk(nodes0, entry, work, i, pos, done, gone, t.nodes, changed)
      decreases Visited(nodes0, entry) - done
    {
      var aborted, touched;
      ghost var done0 := done;
      aborted, work, touched, pos, done, gone := VisitItem(t, entry, work, i, nodes0, pos, done, gone, changed);
      if aborted {
        return Err(AttributeError);
      }
      changed := changed || touched;
      i := i + 1;
    }
    WalkDone(nodes0, entry, work, pos, done, gone, t.nodes, changed);
    return Ok(changed);
  }

  /** `rm_empty_nodes(entry)`: two passes, the flag set by either. */
  method RemoveEmptyNodes(t: Tree, entry: NodeId) returns (r: Result<bool>)
    requires t.Valid() && entry < |t.nodes|
    modifies t
    ensures t.Valid()
    ensures match EmptyNodesResult(old(t.nodes), entry)
            case Err(e) => r == Err(e)
            case Ok((changed, after)) => r == Ok(changed) && t.nodes == after
  {
    var changed := false;
    for pass := 0 to 2
      invariant t.Valid() && Passes(old(t.nodes), entry, pass) == Ok((changed, t.nodes))
    {
      var step := EmptyPass(t, entry);
      match step
      case Err(e) =>
        if pass == 0 {
          PassesErr(old(t.nodes), entry, 1);
        }
        return Err(e);
      case Ok(c) =>
        changed := changed || c;
    }
    return Ok(changed);
  }

  // ---------------------------------------------------------------------
  // What `rm_empty_nodes` promises

  /** What stripping the numbers of `vis` and pruning `gone` does to one element. */
  lemma StripPruneAt(nodes: seq<Node>, vis: set<NodeId>, gone: set<NodeId>, y: NodeId)
    requires y < |nodes|
    ensures var after := PrunedAll(StripAll(nodes, vis), gone);
            after[y].tag == nodes[y].tag && after[y].text == nodes[y].text &&
            after[y].attrib - {"n"} == nodes[y].attrib - {"n"} &&
            (y in vis ==> !Numbered(after[y])) &&
            (y !in vis ==> after[y].attrib == nodes[y].attrib) &&
            forall c :: c in after[y].children <==> c in nodes[y].children && c !in gone
  {
    WithoutMembers(nodes[y].children, gone);
  }

  /** One pass keeps every tag and text; a visited numbered sense loses `n`
      and no other attribute, every other element (outside the subtree, not a
      sense, or with an empty `n`) keeps its attributes unchanged; and an
      element keeps exactly those children that are not blank leaves of the
      subtree. */
  lemma PassEffect(nodes: seq<Node>, entry: NodeId)
    requires WellFormed(nodes) && entry < |nodes| && !BlankLeaf(nodes[entry])
    ensures Pass(nodes, entry).Ok?
    ensures var after := Pass(nodes, entry).value.1;
            var vis := Visited(nodes, entry);
            forall y :: 0 <= y < |nodes| ==>
              after[y].tag == nodes[y].tag && after[y].text == nodes[y].text &&
              after[y].attrib == (if y in vis && Numbered(nodes[y]) then nodes[y].attrib - {"n"} else nodes[y].attrib) &&
              forall c :: c in after[y].children <==> c in nodes[y].children && !(c in vis && BlankLeaf(nodes[c]))
  {
    var vis := Visited(nodes, entry);
    var gone := LeavesIn(nodes, entry, vis);
    assert Pass(nodes, entry) == Ok((NumberedIn(nodes, vis) || gone != {}, PrunedAll(StripAll(nodes, vis), gone)));
    forall y | 0 <= y < |nodes|
      ensures var after := PrunedAll(StripAll(nodes, vis), gone);
              after[y].tag == nodes[y].tag && after[y].text == nodes[y].text &&
              after[y].attrib == (if y in vis && Numbered(nodes[y]) then nodes[y].attrib - {"n"} else nodes[y].attrib) &&
              forall c :: c in after[y].children <==> c in nodes[y].children && !(c in vis && BlankLeaf(nodes[c]))
    {
      StripPruneAt(nodes, vis, gone, y);
      assert PrunedAll(StripAll(nodes, vis), gone)[y].attrib == StripAll(nodes, vis)[y].attrib;
    }
  }

  /** The flag of a pass says exactly whether the pass changed the tree. */
  lemma PassFlag(nodes: seq<Node>, entry: NodeId)
    requires WellFormed(nodes) && entry < |nodes| && !BlankLeaf(nodes[entry])
    ensures Pass(nodes, entry).Ok?
    ensures Pass(nodes, entry).value.0 <==> Pass(nodes, entry).value.1 != nodes
  {
    var vis := Visited(nodes, entry);
    var gone := LeavesIn(nodes, entry, vis);
    var after := PrunedAll(StripAll(nodes, vis), gone);
    assert Pass(nodes, entry) == Ok((NumberedIn(nodes, vis) || gone != {}, after));
    if NumberedIn(nodes, vis) {
      var y :| y in vis && y < |nodes| && Numbered(nodes[y]);
      StripPruneAt(nodes, vis, gone, y);
      assert after[y] != nodes[y];
    } else if gone != {} {
      var y :| y in gone;
      IterParent(nodes, entry, y);
      var p :| p in Iter(nodes, entry) && p < |nodes| && y in nodes[p].children;
      StripPruneAt(nodes, vis, gone, p);
      assert after[p] != nodes[p];
    } else {
      forall y | 0 <= y < |nodes|
        ensures after[y] == nodes[y]
      {
        WithoutNothing(nodes[y].children, gone);
      }
    }
  }

  /** The two passes, one after the other. */
  lemma TwoPasses(nodes: seq<Node>, entry: NodeId)
    requires WellFormed(nodes) && entry < |nodes| && !BlankLeaf(nodes[entry])
    ensures Pass(nodes, entry).Ok?
    ensures var (c1, n1) := Pass(nodes, entry).value;
            EmptyNodesResult(nodes, entry) ==
              match Pass(n1, entry)
              case Err(e) => Err(e)
              case Ok((c2, n2)) => Ok((c1 || c2, n2))
  {
    assert Passes(nodes, entry, 1) == Ok((Pass(nodes, entry).value.0, Pass(nodes, entry).value.1));
  }

  /** After the first pass the entry has no children left exactly when all
      of them were blank leaves. */
  lemma FirstPassEntry(nodes: seq<Node>, entry: NodeId)
    requires WellFormed(nodes) && entry < |nodes| && !BlankLeaf(nodes[entry])
    ensures Pass(nodes, entry).Ok?
    ensures BlankLeaf(Pass(nodes, entry).value.1[entry]) <==>
            Blank(nodes[entry].text) && forall c :: c in nodes[entry].children ==> c < |nodes| && BlankLeaf(nodes[c])
  {
    var vis := Visited(nodes, entry);
    var gone := LeavesIn(nodes, entry, vis);
    var after := PrunedAll(StripAll(nodes, vis), gone);
    assert Pass(nodes, entry) == Ok((NumberedIn(nodes, vis) || gone != {}, after));
    StripPruneAt(nodes, vis, gone, entry);
    forall c | c in nodes[entry].children
      ensures c in vis && c != entry && c < |nodes|
    {
      IterClosed(nodes, entry, entry, c);
    }
    if |after[entry].children| > 0 {
      assert after[entry].children[0] in after[entry].children;
    }
  }

  /** `rm_empty_nodes` raises exactly when the entry is a blank leaf, or has
      blank text and only blank leaves as children: the first pass then
      empties it and the second finds it without a parent. */
  lemma EmptyNodesErr(nodes: seq<Node>, entry: NodeId)
    requires WellFormed(nodes) && entry < |nodes|
    ensures var r := EmptyNodesResult(nodes, entry);
            (r.Err? <==> BlankLeaf(nodes[entry]) ||
                         (Blank(nodes[entry].text) &&
                          forall c :: c in nodes[entry].children ==> c < |nodes| && BlankLeaf(nodes[c]))) &&
            (r.Err? ==> r.error == AttributeError)
  {
    if BlankLeaf(nodes[entry]) {
      assert Passes(nodes, entry, 1) == Err(AttributeError);
      PassesErr(nodes, entry, 1);
    } else {
      TwoPasses(nodes, entry);
      FirstPassEntry(nodes, entry);
    }
  }


  /** Every blank leaf of the subtree is unlinked from its parent. */
  lemma BlankLeavesGone(nodes: seq<Node>, entry: NodeId, y: NodeId, p: NodeId)
    requires WellFormed(nodes) && entry < |nodes| && EmptyNodesResult(nodes, entry).Ok?
    requires y in Visited(nodes, entry) && BlankLeaf(nodes[y]) && p < |nodes|
    ensures y !in EmptyNodesResult(nodes, entry).value.1[p].children
  {
    EmptyNodesErr(nodes, entry);
    TwoPasses(nodes, entry);
    PassEffect(nodes, entry);
    var n1 := Pass(nodes, entry).value.1;
    var vis2 := Visited(n1, entry);
    var gone2 := LeavesIn(n1, entry, vis2);
    StripPruneAt(n1, vis2, gone2, p);
  }

  /** An element all of whose children are pruned is left without children. */
  lemma EmptiedAt(nodes: seq<Node>, vis: set<NodeId>, gone: set<NodeId>, x: NodeId)
    requires x < |nodes| && forall c :: c in nodes[x].children ==> c in gone
    ensures var after := PrunedAll(StripAll(nodes, vis), gone);
            after[x].children == [] && after[x].text == nodes[x].text
  {
    WithoutAll(nodes[x].children, gone);
  }

  /** An element with children stays in the subtree when only childless
      elements are pruned. */
  lemma KeptInSubtree(nodes: seq<Node>, entry: NodeId, vis: set<NodeId>, gone: set<NodeId>, x: NodeId)
    requires WellFormed(nodes) && entry < |nodes| && x in Iter(nodes, entry) && |nodes[x].children| > 0
    requires forall z :: z in gone ==> z < |nodes| && |nodes[z].children| == 0
    ensures WellFormed(PrunedAll(StripAll(nodes, vis), gone))
    ensures x in Iter(PrunedAll(StripAll(nodes, vis), gone), entry)
  {
    var after := PrunedAll(StripAll(nodes, vis), gone);
    StrippedWellFormed(nodes, vis, gone);
    forall k, c | 0 <= k < |nodes| && c in nodes[k].children && c !in gone
      ensures c in after[k].children
    {
      StripPruneAt(nodes, vis, gone, k);
    }
    forall z | z in Iter(nodes, entry) && x in Iter(nodes, z)
      ensures z !in gone
    {
      IterMember(nodes, z, x);
    }
    IterKept(nodes, after, gone, entry, x);
  }

  /** The first pass leaves a parent with blank text whose children are all
      blank leaves as a blank leaf, still in the subtree. */
  lemma EmptiedByFirstPass(nodes: seq<Node>, entry: NodeId, x: NodeId)
    requires WellFormed(nodes) && entry < |nodes| && !BlankLeaf(nodes[entry])
    requires x in Visited(nodes, entry) && Blank(nodes[x].text) && |nodes[x].children| > 0
    requires forall c :: c in nodes[x].children ==> c < |nodes| && BlankLeaf(nodes[c])
    ensures Pass(nodes, entry).Ok?
    ensures var n1 := Pass(nodes, entry).value.1;
            BlankLeaf(n1[x]) && x in Visited(n1, entry)
  {
    var vis := Visited(nodes, entry);
    var gone := LeavesIn(nodes, entry, vis);
    var n1 := PrunedAll(StripAll(nodes, vis), gone);
    assert Pass(nodes, entry) == Ok((NumberedIn(nodes, vis) || gone != {}, n1));
    forall c | c in nodes[x].children
      ensures c in gone
    {
      IterClosed(nodes, entry, x, c);
    }
    EmptiedAt(nodes, vis, gone, x);
    KeptInSubtree(nodes, entry, vis, gone, x);
  }

  /** A parent with blank text whose children are all blank leaves is
      emptied by the first pass and unlinked by the second. */
  lemma EmptiedParentsGone(nodes: seq<Node>, entry: NodeId, x: NodeId, p: NodeId)
    requires WellFormed(nodes) && entry < |nodes| && EmptyNodesResult(nodes, entry).Ok?
    requires x in Visited(nodes, entry) && Blank(nodes[x].text) && |nodes[x].children| > 0
    requires forall c :: c in nodes[x].children ==> c < |nodes| && BlankLeaf(nodes[c])
    requires p < |nodes|
    ensures x !in EmptyNodesResult(nodes, entry).value.1[p].children
  {
    EmptyNodesErr(nodes, entry);
    assert x != entry;
    TwoPasses(nodes, entry);
    EmptiedByFirstPass(nodes, entry, x);
    var n1 := Pass(nodes, entry).value.1;
    var vis2 := Visited(n1, entry);
    var gone2 := LeavesIn(n1, entry, vis2);
    StripPruneAt(n1, vis2, gone2, p);
  }

  /** Every element of the subtree ends without a manual number. */
  lemma NumbersStripped(nodes: seq<Node>, entry: NodeId, y: NodeId)
    requires WellFormed(nodes) && entry < |nodes| && EmptyNodesResult(nodes, entry).Ok?
    requires y in Visited(nodes, entry)
    ensures !Numbered(EmptyNodesResult(nodes, entry).value.1[y])
  {
    EmptyNodesErr(nodes, entry);
    TwoPasses(nodes, entry);
    PassEffect(nodes, entry);
    var n1 := Pass(nodes, entry).value.1;
    var vis2 := Visited(n1, entry);
    var gone2 := LeavesIn(n1, entry, vis2);
    StripPruneAt(n1, vis2, gone2, y);
  }

  /** No deeper cascade: below an entry with text, a chain of three blank
      elements `x`, `y`, `z`, one inside the other, loses `z` in the first
      pass and `y` in the second; `x` is left behind as a blank leaf. */
  lemma NoDeeperCascade(nodes: seq<Node>, entry: NodeId, x: NodeId, y: NodeId, z: NodeId)
    requires WellFormed(nodes) && entry < |nodes| && x < |nodes| && y < |nodes| && z < |nodes|
    requires nodes[entry].children == [x] && nodes[x].children == [y] && nodes[y].children == [z] && nodes[z].children == []
    requires !Blank(nodes[entry].text) && Blank(nodes[x].text) && Blank(nodes[y].text) && Blank(nodes[z].text)
    ensures var r := EmptyNodesResult(nodes, entry);
            r.Ok? && x in r.value.1[entry].children && BlankLeaf(r.value.1[x])
  {
    TwoPasses(nodes, entry);
    var n1 := Pass(nodes, entry).value.1;
    assert x in n1[entry].children && y in n1[x].children && n1[x].text == nodes[x].text &&
           BlankLeaf(n1[y]) && y in Visited(n1, entry) by {
      assert x in nodes[entry].children && y in nodes[x].children && z in nodes[y].children;
      IterClosed(nodes, entry, entry, x);
      IterClosed(nodes, entry, x, y);
      IterClosed(nodes, entry, y, z);
      PassEffect(nodes, entry);
      EmptiedByFirstPass(nodes, entry, y);
    }
    var vis2 := Visited(n1, entry);
    var gone2 := LeavesIn(n1, entry, vis2);
    var n2 := PrunedAll(StripAll(n1, vis2), gone2);
    assert Pass(n1, entry) == Ok((NumberedIn(n1, vis2) || gone2 != {}, n2));
    assert y in gone2 && x !in gone2;
    assert x in n2[entry].children by {
      StripPruneAt(n1, vis2, gone2, entry);
    }
    assert BlankLeaf(n2[x]) by {
      forall c | c in n1[x].children
        ensures c in gone2
      {
        assert c in nodes[x].children by {
          PassEffect(nodes, entry);
        }
      }
      EmptiedAt(n1, vis2, gone2, x);
    }
  }
}
