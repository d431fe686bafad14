/** The element tree the deduplicator mutates. ElementTree's `Element`
    objects are modelled as an arena: every element of the parsed document is
    an entry of `Tree.nodes`, addressed by its index (`NodeId`), and holds its
    tag, its text, its attributes and the ordered ids of its children. An
    element removed from its parent stays in the arena, unlinked, just as a
    Python object outlives its removal from a list. */
module Etree {
  import opened Base
  import opened Text

  type NodeId = nat

  /** The TEI namespace in ElementTree's `{uri}local` tag spelling. */
  const TeiNamespace: string := "{http://www.tei-c.org/ns/1.0}"
  const EntryTag: string := TeiNamespace + "entry"
  const SenseTag: string := TeiNamespace + "sense"
  const CitTag: string := TeiNamespace + "cit"
  const QuoteTag: string := TeiNamespace + "quote"

  /** One element: tag, optional text, attribute map, ordered children. */
  datatype Node = Node(tag: string, text: Option<string>, attrib: map<string, string>, children: seq<NodeId>)

  predicate NoDup(s: seq<NodeId>)
  {
    forall a, b :: 0 <= a < b < |s| ==> s[a] != s[b]
  }

  /** The arena holds a tree: ids are numbered in document order (so a child
      comes after its parent), no element is listed twice among its parent's
      children, and no element has two parents. */
  predicate WellFormed(nodes: seq<Node>)
  {
    (forall i, k :: 0 <= i < |nodes| && 0 <= k < |nodes[i].children| ==> i < nodes[i].children[k] < |nodes|) &&
    (forall i :: 0 <= i < |nodes| ==> NoDup(nodes[i].children)) &&
    (forall i, j, c ::
       (0 <= i < |nodes| && 0 <= j < |nodes| && c in nodes[i].children && c in nodes[j].children) ==> i == j)
  }

  /** `x.iter()`: `x` and all its descendants, in document (pre-)order. */
  function Iter(nodes: seq<Node>, x: NodeId): (r: seq<NodeId>)
    requires WellFormed(nodes) && x < |nodes|
    ensures |r| >= 1 && r[0] == x
    ensures forall y :: y in r ==> x <= y < |nodes|
    ensures forall k :: 0 <= k < |r| ==> x <= r[k] < |nodes|
    decreases |nodes| - x, 1, 0
  {
    [x] + IterAll(nodes, nodes[x].children, x)
  }

  /** The pre-order iterations of the elements `cs`, one after the other. */
  function IterAll(nodes: seq<Node>, cs: seq<NodeId>, parent: NodeId): (r: seq<NodeId>)
    requires WellFormed(nodes) && parent < |nodes|
    requires forall k :: 0 <= k < |cs| ==> parent < cs[k] < |nodes|
    ensures forall y :: y in r ==> parent < y < |nodes|
    ensures forall k :: 0 <= k < |r| ==> parent < r[k] < |nodes|
    decreases |nodes| - parent, 0, |cs|
  {
    if cs == [] then [] else Iter(nodes, cs[0]) + IterAll(nodes, cs[1..], parent)
  }

  lemma {:induction false} IterAllMember(nodes: seq<Node>, cs: seq<NodeId>, parent: NodeId, y: NodeId)
    requires WellFormed(nodes) && parent < |nodes|
    requires forall k :: 0 <= k < |cs| ==> parent < cs[k] < |nodes|
    ensures y in IterAll(nodes, cs, parent) <==> exists c :: c in cs && y in Iter(nodes, c)
  {
    if cs != [] {
      IterAllMember(nodes, cs[1..], parent, y);
      if y !in Iter(nodes, cs[0]) && exists c :: c in cs && y in Iter(nodes, c) {
        var c :| c in cs && y in Iter(nodes, c);
        assert c in cs[1..] by {
          var k :| 0 <= k < |cs| && cs[k] == c;
          assert k != 0 && cs[1..][k - 1] == c;
        }
      }
      if y in IterAll(nodes, cs[1..], parent) {
        var c :| c in cs[1..] && y in Iter(nodes, c);
        assert c in cs;
      }
      if y in Iter(nodes, cs[0]) {
        assert cs[0] in cs;
      }
    }
  }

  /** An element is in the iteration of `x` iff it is `x` or in the iteration of a child of `x`. */
  lemma IterMember(nodes: seq<Node>, x: NodeId, y: NodeId)
    requires WellFormed(nodes) && x < |nodes|
    ensures y in Iter(nodes, x) <==> y == x || exists c :: c in nodes[x].children && y in Iter(nodes, c)
  {
    IterAllMember(nodes, nodes[x].children, x, y);
  }

  /** The descendants of `e` are closed under taking children. */
  lemma {:induction false} IterClosed(nodes: seq<Node>, e: NodeId, x: NodeId, c: NodeId)
    requires WellFormed(nodes) && e < |nodes|
    requires x in Iter(nodes, e) && c in nodes[x].children
    ensures c in Iter(nodes, e)
    decreases |nodes| - e
  {
    IterMember(nodes, e, x);
    IterMember(nodes, e, c);
    if x != e {
      var c' :| c' in nodes[e].children && x in Iter(nodes, c');
      IterClosed(nodes, c', x, c);
    }
  }

  /** Any set that contains `e` and is closed under taking children contains all of `e`'s descendants. */
  lemma {:induction false} IterLeast(nodes: seq<Node>, e: NodeId, s: set<NodeId>, y: NodeId)
    requires WellFormed(nodes) && e < |nodes| && e in s
    requires forall x, c :: x in s && 0 <= x < |nodes| && c in nodes[x].children ==> c in s
    requires y in Iter(nodes, e)
    ensures y in s
    decreases |nodes| - e
  {
    IterMember(nodes, e, y);
    if y != e {
      var c :| c in nodes[e].children && y in Iter(nodes, c);
      IterLeast(nodes, c, s, y);
    }
  }

  /** The descendants of a descendant `c` of `e` are descendants of `e`. */
  lemma IterWithin(nodes: seq<Node>, e: NodeId, c: NodeId, y: NodeId)
    requires WellFormed(nodes) && e < |nodes|
    requires c in Iter(nodes, e) && y in Iter(nodes, c)
    ensures y in Iter(nodes, e)
  {
    var s := set x | x in Iter(nodes, e);
    forall x, d | x in s && 0 <= x < |nodes| && d in nodes[x].children
      ensures d in s
    {
      IterClosed(nodes, e, x, d);
    }
    IterLeast(nodes, c, s, y);
  }

  /** Every descendant of `e` other than `e` has its parent among them. */
  lemma {:induction false} IterParent(nodes: seq<Node>, e: NodeId, y: NodeId)
    requires WellFormed(nodes) && e < |nodes|
    requires y in Iter(nodes, e) && y != e
    ensures exists p :: p in Iter(nodes, e) && p < |nodes| && y in nodes[p].children
    decreases |nodes| - e
  {
    IterMember(nodes, e, y);
    var c :| c in nodes[e].children && y in Iter(nodes, c);
    if y != c {
      IterParent(nodes, c, y);
      var p :| p in Iter(nodes, c) && p < |nodes| && y in nodes[p].children;
      IterClosed(nodes, e, e, c);
      IterWithin(nodes, e, c, p);
    }
  }

  /** An element of the subtree of `e` stays in it when children are only
      dropped and none of its ancestors (nor itself) is dropped. */
  lemma {:induction false} IterKept(nodes: seq<Node>, nodes': seq<Node>, gone: set<NodeId>, e: NodeId, x: NodeId)
    requires WellFormed(nodes) && WellFormed(nodes') && |nodes'| == |nodes| && e < |nodes|
    requires forall k, c :: 0 <= k < |nodes| && c in nodes[k].children && c !in gone ==> c in nodes'[k].children
    requires x in Iter(nodes, e)
    requires forall z :: z in Iter(nodes, e) && x in Iter(nodes, z) ==> z !in gone
    ensures x in Iter(nodes', e)
    decreases |nodes| - e
  {
    IterMember(nodes, e, x);
    if x != e {
      var c :| c in nodes[e].children && x in Iter(nodes, c);
      IterClosed(nodes, e, e, c);
      forall z | z in Iter(nodes, c) && x in Iter(nodes, z)
        ensures z !in gone
      {
        IterWithin(nodes, e, c, z);
      }
      IterKept(nodes, nodes', gone, c, x);
      IterMember(nodes', e, x);
    }
  }

  /** The iteration of `x` only reads the elements from `x` on. */
  lemma {:induction false} IterFrame(nodes: seq<Node>, nodes': seq<Node>, x: NodeId)
    requires WellFormed(nodes) && WellFormed(nodes') && |nodes| == |nodes'| && x < |nodes|
    requires forall k :: x <= k < |nodes| ==> nodes[k] == nodes'[k]
    ensures Iter(nodes, x) == Iter(nodes', x)
    decreases |nodes| - x, 1, 0
  {
    IterAllFrame(nodes, nodes', nodes[x].children, x);
  }

  lemma {:induction false} IterAllFrame(nodes: seq<Node>, nodes': seq<Node>, cs: seq<NodeId>, parent: NodeId)
    requires WellFormed(nodes) && WellFormed(nodes') && |nodes| == |nodes'| && parent < |nodes|
    requires forall k :: 0 <= k < |cs| ==> parent < cs[k] < |nodes|
    requires forall k :: parent <= k < |nodes| ==> nodes[k] == nodes'[k]
    ensures IterAll(nodes, cs, parent) == IterAll(nodes', cs, parent)
    decreases |nodes| - parent, 0, |cs|
  {
    if cs != [] {
      IterFrame(nodes, nodes', cs[0]);
      IterAllFrame(nodes, nodes', cs[1..], parent);
    }
  }

  /** The elements of `cs` whose tag is `tag`, in order. */
  function Tagged(nodes: seq<Node>, cs: seq<NodeId>, tag: string): (r: seq<NodeId>)
    ensures forall y :: y in r <==> y in cs && y < |nodes| && nodes[y].tag == tag
    ensures forall k :: 0 <= k < |r| ==> r[k] in cs && r[k] < |nodes|
    ensures NoDup(cs) ==> NoDup(r)
  {
    if cs == [] then []
    else
      var rest := Tagged(nodes, cs[1..], tag);
      assert NoDup(cs) ==> cs[0] !in cs[1..];
      (if cs[0] < |nodes| && nodes[cs[0]].tag == tag then [cs[0]] else []) + rest
  }

  lemma AppendAssoc<T>(a: seq<T>, b: seq<T>, c: seq<T>)
    ensures a + (b + c) == (a + b) + c
  {
  }

  /** `Tagged` looks at the head, then at the rest. */
  lemma TaggedCons(nodes: seq<Node>, x: NodeId, cs: seq<NodeId>, tag: string)
    ensures Tagged(nodes, [x] + cs, tag) ==
            (if x < |nodes| && nodes[x].tag == tag then [x] else []) + Tagged(nodes, cs, tag)
  {
    assert ([x] + cs)[1..] == cs;
  }

  /** `Tagged` keeps the order of `cs`: filtering a sequence made of two
      parts keeps what it takes from the first part ahead of what it takes
      from the second. */
  lemma {:induction false} TaggedConcat(nodes: seq<Node>, xs: seq<NodeId>, ys: seq<NodeId>, tag: string)
    ensures Tagged(nodes, xs + ys, tag) == Tagged(nodes, xs, tag) + Tagged(nodes, ys, tag)
  {
    if xs == [] {
      assert xs + ys == ys;
      assert [] + Tagged(nodes, ys, tag) == Tagged(nodes, ys, tag);
    } else {
      var x, rest := xs[0], xs[1..];
      TaggedConcat(nodes, rest, ys, tag);
      AppendAssoc([x], rest, ys);
      assert xs == [x] + rest;
      TaggedCons(nodes, x, rest, tag);
      TaggedCons(nodes, x, rest + ys, tag);
      AppendAssoc(if x < |nodes| && nodes[x].tag == tag then [x] else [], Tagged(nodes, rest, tag), Tagged(nodes, ys, tag));
    }
  }

  /** `x.findall(tag)` for a plain tag: the direct children of `x` with that tag. */
  function FindAll(nodes: seq<Node>, x: NodeId, tag: string): (r: seq<NodeId>)
    requires WellFormed(nodes) && x < |nodes|
    ensures forall y :: y in r <==> y in nodes[x].children && nodes[y].tag == tag
    ensures forall k :: 0 <= k < |r| ==> x < r[k] < |nodes|
    ensures NoDup(r)
  {
    Tagged(nodes, nodes[x].children, tag)
  }

  /** `cs` without the elements of `gone`, order kept. */
  function Without(cs: seq<NodeId>, gone: set<NodeId>): (r: seq<NodeId>)
    ensures |r| <= |cs|
  {
    if cs == [] then []
    else (if cs[0] in gone then [] else [cs[0]]) + Without(cs[1..], gone)
  }

  /** An element is kept exactly when it was there and is not in `gone`. */
  lemma {:induction false} WithoutMember(cs: seq<NodeId>, gone: set<NodeId>, y: NodeId)
    ensures y in Without(cs, gone) <==> y in cs && y !in gone
  {
    if cs != [] {
      WithoutMember(cs[1..], gone, y);
      assert cs == [cs[0]] + cs[1..];
    }
  }

  lemma WithoutMembers(cs: seq<NodeId>, gone: set<NodeId>)
    ensures forall y :: y in Without(cs, gone) <==> y in cs && y !in gone
  {
    forall y {
      WithoutMember(cs, gone, y);
    }
  }

  /** Dropping elements keeps a list free of duplicates. */
  lemma {:induction false} WithoutNoDup(cs: seq<NodeId>, gone: set<NodeId>)
    requires NoDup(cs)
    ensures NoDup(Without(cs, gone))
  {
    if cs != [] {
      WithoutNoDup(cs[1..], gone);
      WithoutMember(cs[1..], gone, cs[0]);
      assert cs[0] !in cs[1..];
    }
  }

  lemma {:induction false} WithoutNothing(cs: seq<NodeId>, gone: set<NodeId>)
    requires forall y :: y in cs ==> y !in gone
    ensures Without(cs, gone) == cs
  {
    if cs != [] {
      WithoutNothing(cs[1..], gone);
    }
  }

  lemma {:induction false} WithoutAll(cs: seq<NodeId>, gone: set<NodeId>)
    requires forall y :: y in cs ==> y in gone
    ensures Without(cs, gone) == []
  {
    if cs != [] {
      WithoutAll(cs[1..], gone);
    }
  }

  /** Only the members of `gone` that occur in `cs` matter. */
  lemma {:induction false} WithoutSame(cs: seq<NodeId>, g1: set<NodeId>, g2: set<NodeId>)
    requires forall y :: y in cs ==> (y in g1 <==> y in g2)
    ensures Without(cs, g1) == Without(cs, g2)
  {
    if cs != [] {
      WithoutSame(cs[1..], g1, g2);
    }
  }

  lemma {:induction false} WithoutTwice(cs: seq<NodeId>, g1: set<NodeId>, g2: set<NodeId>)
    ensures Without(Without(cs, g1), g2) == Without(cs, g1 + g2)
  {
    if cs != [] {
      WithoutTwice(cs[1..], g1, g2);
      var head := if cs[0] in g1 then [] else [cs[0]];
      assert Without(cs, g1) == head + Without(cs[1..], g1);
      if cs[0] !in g1 {
        assert Without(cs, g1)[1..] == Without(cs[1..], g1);
      } else {
        assert Without(cs, g1) == Without(cs[1..], g1);
      }
    }
  }

  /** Filtering by tag and removing a set of elements commute. */
  lemma {:induction false} TaggedWithout(nodes: seq<Node>, cs: seq<NodeId>, tag: string, gone: set<NodeId>)
    requires forall k :: 0 <= k < |cs| ==> cs[k] < |nodes|
    ensures Tagged(nodes, Without(cs, gone), tag) == Without(Tagged(nodes, cs, tag), gone)
  {
    if cs != [] {
      TaggedWithout(nodes, cs[1..], tag, gone);
      var w := Without(cs, gone);
      if cs[0] in gone {
        assert w == Without(cs[1..], gone);
      } else {
        assert w == [cs[0]] + Without(cs[1..], gone) && w[1..] == Without(cs[1..], gone);
      }
      var t := Tagged(nodes, cs, tag);
      if nodes[cs[0]].tag == tag {
        assert t == [cs[0]] + Tagged(nodes, cs[1..], tag) && t[1..] == Tagged(nodes, cs[1..], tag);
      } else {
        assert t == Tagged(nodes, cs[1..], tag);
      }
    }
  }

  /** Filtering by tag reads only the tags of the filtered elements. */
  lemma {:induction false} TaggedFrame(nodes: seq<Node>, nodes': seq<Node>, cs: seq<NodeId>, tag: string)
    requires forall k :: 0 <= k < |cs| ==> cs[k] < |nodes| && cs[k] < |nodes'| && nodes[cs[k]].tag == nodes'[cs[k]].tag
    ensures Tagged(nodes, cs, tag) == Tagged(nodes', cs, tag)
  {
    if cs != [] {
      TaggedFrame(nodes, nodes', cs[1..], tag);
    }
  }

  /** `list.remove(x)`: drop the first occurrence of `x`; `None` stands for the
      `ValueError` raised when `x` is absent. */
  function Remove(cs: seq<NodeId>, x: NodeId): Option<seq<NodeId>>
  {
    if cs == [] then None
    else if cs[0] == x then Some(cs[1..])
    else
      match Remove(cs[1..], x)
      case None => None
      case Some(rest) => Some([cs[0]] + rest)
  }

  /** `list.remove(x)` raises exactly when `x` is not in the list. */
  lemma {:induction false} RemoveAbsent(cs: seq<NodeId>, x: NodeId)
    ensures Remove(cs, x).None? <==> x !in cs
  {
    if cs != [] {
      RemoveAbsent(cs[1..], x);
      assert cs == [cs[0]] + cs[1..];
    }
  }

  /** `list.remove(x)` drops the first occurrence of `x`, at `k`, and keeps
      the rest in order. */
  lemma {:induction false} RemoveFirst(cs: seq<NodeId>, x: NodeId, k: nat)
    requires k < |cs| && cs[k] == x && x !in cs[..k]
    ensures Remove(cs, x) == Some(cs[..k] + cs[k + 1..])
  {
    if k == 0 {
      assert cs[..0] + cs[1..] == cs[1..];
    } else {
      var tl := cs[1..];
      assert cs[0] in cs[..k];
      assert tl[..k - 1] == cs[1..k];
      RemoveFirst(tl, x, k - 1);
      assert Remove(cs, x) == Some([cs[0]] + (tl[..k - 1] + tl[k..]));
      assert cs[..k] == [cs[0]] + tl[..k - 1] && cs[k + 1..] == tl[k..];
      AppendAssoc([cs[0]], tl[..k - 1], tl[k..]);
    }
  }

  /** Without duplicates, removing the first occurrence removes every occurrence. */
  lemma {:induction false} RemoveWithout(cs: seq<NodeId>, x: NodeId)
    requires NoDup(cs) && x in cs
    ensures Remove(cs, x) == Some(Without(cs, {x}))
  {
    assert cs[0] !in cs[1..];
    assert Without(cs, {x}) == (if cs[0] == x then [] else [cs[0]]) + Without(cs[1..], {x});
    if cs[0] == x {
      WithoutNothing(cs[1..], {x});
      assert [] + Without(cs[1..], {x}) == cs[1..];
    } else {
      assert x in cs[1..] && NoDup(cs[1..]);
      RemoveWithout(cs[1..], x);
    }
  }

  /** Replacing the children of one element by a duplicate-free selection of them keeps the tree well formed. */
  lemma ShrinkChildren(nodes: seq<Node>, x: NodeId, cs: seq<NodeId>)
    requires WellFormed(nodes) && x < |nodes|
    requires forall c :: c in cs ==> c in nodes[x].children
    requires NoDup(cs)
    ensures WellFormed(nodes[x := nodes[x].(children := cs)])
  {
    var nodes' := nodes[x := nodes[x].(children := cs)];
    forall i, k | 0 <= i < |nodes'| && 0 <= k < |nodes'[i].children|
      ensures i < nodes'[i].children[k] < |nodes'|
    {
      var c := nodes'[i].children[k];
      assert c in nodes[i].children;
      var k' :| 0 <= k' < |nodes[i].children| && nodes[i].children[k'] == c;
    }
    forall i, j, c | 0 <= i < |nodes'| && 0 <= j < |nodes'| && c in nodes'[i].children && c in nodes'[j].children
      ensures i == j
    {
      assert c in nodes[i].children && c in nodes[j].children;
    }
  }

  /** The tree in which element `x` has lost the children in `gone`. */
  function Pruned(nodes: seq<Node>, x: NodeId, gone: set<NodeId>): (r: seq<Node>)
    requires x < |nodes|
    ensures |r| == |nodes|
  {
    nodes[x := nodes[x].(children := Without(nodes[x].children, gone))]
  }

  lemma PrunedWellFormed(nodes: seq<Node>, x: NodeId, gone: set<NodeId>)
    requires WellFormed(nodes) && x < |nodes|
    ensures WellFormed(Pruned(nodes, x, gone))
  {
    WithoutMembers(nodes[x].children, gone);
    WithoutNoDup(nodes[x].children, gone);
    ShrinkChildren(nodes, x, Without(nodes[x].children, gone));
  }

  /** After pruning, `findall` on the pruned element yields the old matches
      without the pruned ones, in their old order. */
  lemma FindAllPruned(nodes: seq<Node>, x: NodeId, gone: set<NodeId>, tag: string)
    requires WellFormed(nodes) && x < |nodes|
    ensures WellFormed(Pruned(nodes, x, gone))
    ensures FindAll(Pruned(nodes, x, gone), x, tag) == Without(FindAll(nodes, x, tag), gone)
  {
    var nodes' := Pruned(nodes, x, gone);
    PrunedWellFormed(nodes, x, gone);
    var w := nodes'[x].children;
    TaggedFrame(nodes', nodes, w, tag);
    TaggedWithout(nodes, nodes[x].children, tag, gone);
  }

  /** Removing one more child `y` of `x` from the pruned tree `cur` prunes `y`
      as well; it fails exactly when `y` is not, or no longer, a child of `x`. */
  lemma PrunedRemove(nodes: seq<Node>, x: NodeId, gone: set<NodeId>, y: NodeId, cur: seq<Node>)
    requires WellFormed(nodes) && x < |nodes|
    requires cur == Pruned(nodes, x, gone)
    ensures Remove(cur[x].children, y).None? <==> y !in nodes[x].children || y in gone
    ensures Remove(cur[x].children, y).Some? ==>
              cur[x := cur[x].(children := Remove(cur[x].children, y).value)] == Pruned(nodes, x, gone + {y})
  {
    WithoutTwice(nodes[x].children, gone, {y});
    RemoveAbsent(cur[x].children, y);
    WithoutMember(nodes[x].children, gone, y);
    WithoutNoDup(nodes[x].children, gone);
    if y in cur[x].children {
      RemoveWithout(cur[x].children, y);
    }
  }

  /** The tree in which every element has lost its children in `gone`. Since
      an element has at most one parent, this unlinks each member of `gone`
      from the one element that held it. */
  function PrunedAll(nodes: seq<Node>, gone: set<NodeId>): (r: seq<Node>)
    ensures |r| == |nodes|
  {
    seq(|nodes|, k requires 0 <= k < |nodes| => nodes[k].(children := Without(nodes[k].children, gone)))
  }

  lemma PrunedAllWellFormed(nodes: seq<Node>, gone: set<NodeId>)
    requires WellFormed(nodes)
    ensures WellFormed(PrunedAll(nodes, gone))
  {
    var nodes' := PrunedAll(nodes, gone);
    forall i, k | 0 <= i < |nodes'| && 0 <= k < |nodes'[i].children|
      ensures i < nodes'[i].children[k] < |nodes'|
    {
      var c := nodes'[i].children[k];
      WithoutMember(nodes[i].children, gone, c);
      assert c in nodes[i].children;
      var k' :| 0 <= k' < |nodes[i].children| && nodes[i].children[k'] == c;
    }
    forall i | 0 <= i < |nodes'|
      ensures NoDup(nodes'[i].children)
    {
      WithoutNoDup(nodes[i].children, gone);
    }
    forall i, j, c | 0 <= i < |nodes'| && 0 <= j < |nodes'| && c in nodes'[i].children && c in nodes'[j].children
      ensures i == j
    {
      WithoutMember(nodes[i].children, gone, c);
      WithoutMember(nodes[j].children, gone, c);
    }
  }

  lemma PrunedAllNothing(nodes: seq<Node>)
    ensures PrunedAll(nodes, {}) == nodes
  {
    forall k | 0 <= k < |nodes|
      ensures PrunedAll(nodes, {})[k] == nodes[k]
    {
      WithoutNothing(nodes[k].children, {});
    }
  }

  /** Removing child `y` of `x` from the pruned tree `cur` prunes `y` as well;
      it fails exactly when `y` is already pruned. */
  lemma PrunedAllRemove(nodes: seq<Node>, gone: set<NodeId>, x: NodeId, y: NodeId, cur: seq<Node>)
    requires WellFormed(nodes) && x < |nodes| && y in nodes[x].children
    requires cur == PrunedAll(nodes, gone)
    ensures Remove(cur[x].children, y).None? <==> y in gone
    ensures Remove(cur[x].children, y).Some? ==>
              cur[x := cur[x].(children := Remove(cur[x].children, y).value)] == PrunedAll(nodes, gone + {y})
  {
    WithoutTwice(nodes[x].children, gone, {y});
    RemoveAbsent(cur[x].children, y);
    WithoutMember(nodes[x].children, gone, y);
    WithoutNoDup(nodes[x].children, gone);
    if y !in gone {
      RemoveWithout(cur[x].children, y);
    }
    forall k | 0 <= k < |nodes| && k != x
      ensures Without(nodes[k].children, gone + {y}) == Without(nodes[k].children, gone)
    {
      WithoutSame(nodes[k].children, gone + {y}, gone);
    }
  }

  /** Every element of the parsed document. The reducers mutate it in place. */
  class Tree {
    var nodes: seq<Node>

    ghost predicate Valid()
      reads this
    {
      WellFormed(nodes)
    }

    constructor (nodes: seq<Node>)
      requires WellFormed(nodes)
      ensures Valid() && this.nodes == nodes
    {
      this.nodes := nodes;
    }
  }
}
