/**
 * The engine's delete walk. Starting from the root it visits every child
 * of a document, every mapping value and every sequence element that is
 * not the target, and drops from each mapping it visits the pairs whose
 * value is the target and from each sequence the target elements. Keys
 * and alias targets are never visited.
 *
 * Its effect is stated as a pure function: the set of nodes the walk
 * visits, each stripped of the target. Because stripping never changes
 * which nodes the walk visits, the result does not depend on the order
 * of the visits, nor on a node being reached twice through sharing.
 */
module Deletion {
  import opened Wrappers
  import opened YamlTree

  // ---------------------------------------------------------------------
  // Stripping one node

  /** The pairs of a mapping's content whose value is not t, in order. */
  function StripPairs(s: seq<Node>, t: Node): (r: seq<Node>)
    ensures |r| <= |s| && |r| % 2 == 0
    ensures forall x | x in r :: x in s
  {
    if |s| < 2 then []
    else
      var kept := StripPairs(s[..|s| - 2], t);
      var pair := if s[|s| - 1] == t then [] else s[|s| - 2..];
      assert |pair| % 2 == 0 && forall x | x in pair :: x in s;
      kept + pair
  }

  /** The elements of a sequence's content other than t, in order. */
  function FilterOut(s: seq<Node>, t: Node): (r: seq<Node>)
    ensures |r| <= |s|
    ensures forall x | x in r :: x in s
  {
    if |s| == 0 then []
    else FilterOut(s[..|s| - 1], t) + (if s[|s| - 1] == t then [] else [s[|s| - 1]])
  }

  /** The content a visited node keeps: only mappings and sequences lose children. */
  function StripSeq(s: seq<Node>, kind: Kind, t: Node): (r: seq<Node>)
    ensures forall x | x in r :: x in s
  {
    if kind == MappingNode then StripPairs(s, t)
    else if kind == SequenceNode then FilterOut(s, t)
    else s
  }

  function Strip(c: Cell, t: Node): Cell
  {
    c.(content := StripSeq(c.content, c.kind, t))
  }

  /** Every node of W stripped of t. */
  ghost function ApplyStrip(h: Heap, W: set<Node>, t: Node): (r: Heap)
    ensures r.Keys == h.Keys
  {
    map n | n in h :: if n in W then Strip(h[n], t) else h[n]
  }

  // ---------------------------------------------------------------------
  // The nodes the walk visits

  /** s lies strictly below rank b. */
  ghost predicate AllBelow(h: Heap, rank: map<Node, nat>, s: seq<Node>, b: nat)
  {
    forall k | 0 <= k < |s| :: s[k] in h && s[k] in rank && rank[s[k]] < b
  }

  /** The nodes the walk visits from n, n included. */
  ghost function Walked(h: Heap, rank: map<Node, nat>, n: Node, t: Node): (r: set<Node>)
    requires Wf(h, rank) && n in h
    ensures n in r && forall m | m in r :: m in h && m in rank && rank[m] <= rank[n]
    decreases rank[n], 1, 0
  {
    assert AllBelow(h, rank, h[n].content, rank[n]) by {
      assert WfCell(h, rank, n, h[n]);
    }
    {n} + WalkSeq(h, rank, rank[n], h[n].content, h[n].kind, t)
  }

  /**
   * The nodes visited below the children s of a node of the given kind:
   * each child of a document, each mapping value other than t (pairs are
   * counted from the end, which agrees with counting from the start for
   * the even contents of mappings), each sequence element other than t.
   */
  ghost function WalkSeq(h: Heap, rank: map<Node, nat>, b: nat, s: seq<Node>, kind: Kind, t: Node): (r: set<Node>)
    requires Wf(h, rank) && AllBelow(h, rank, s, b)
    ensures forall m | m in r :: m in h && m in rank && rank[m] < b
    decreases b, 0, |s|
  {
    if kind == MappingNode then
      if |s| < 2 then {}
      else
        WalkSeq(h, rank, b, s[..|s| - 2], kind, t) +
          (if s[|s| - 1] != t then Walked(h, rank, s[|s| - 1], t) else {})
    else if kind == SequenceNode || kind == DocumentNode then
      if |s| == 0 then {}
      else
        WalkSeq(h, rank, b, s[..|s| - 1], kind, t) +
          (if kind == DocumentNode || s[|s| - 1] != t then Walked(h, rank, s[|s| - 1], t) else {})
    else {}
  }

  // ---------------------------------------------------------------------
  // Facts about stripping

  lemma {:induction false} StripPairsIdem(s: seq<Node>, t: Node)
    ensures StripPairs(StripPairs(s, t), t) == StripPairs(s, t)
  {
    if |s| >= 2 {
      var a := StripPairs(s[..|s| - 2], t);
      StripPairsIdem(s[..|s| - 2], t);
      if s[|s| - 1] != t {
        var r := a + s[|s| - 2..];
        assert StripPairs(s, t) == r;
        assert r[..|r| - 2] == a && r[|r| - 2..] == s[|s| - 2..] && r[|r| - 1] == s[|s| - 1];
        assert StripPairs(r, t) == StripPairs(a, t) + s[|s| - 2..];
      } else {
        assert StripPairs(s, t) == a;
      }
    }
  }

  lemma {:induction false} FilterOutIdem(s: seq<Node>, t: Node)
    ensures FilterOut(FilterOut(s, t), t) == FilterOut(s, t)
  {
    if |s| > 0 {
      var a := FilterOut(s[..|s| - 1], t);
      FilterOutIdem(s[..|s| - 1], t);
      if s[|s| - 1] != t {
        var r := a + [s[|s| - 1]];
        assert FilterOut(s, t) == r;
        assert r[..|r| - 1] == a && r[|r| - 1] == s[|s| - 1];
        assert FilterOut(r, t) == FilterOut(a, t) + [s[|s| - 1]];
      } else {
        assert FilterOut(s, t) == a;
      }
    }
  }

  /** Stripping a node twice is stripping it once. */
  lemma StripIdem(c: Cell, t: Node)
    ensures Strip(Strip(c, t), t) == Strip(c, t)
  {
    StripPairsIdem(c.content, t);
    FilterOutIdem(c.content, t);
  }

  /** Stripping two sets one after the other is stripping their union. */
  lemma StripCompose(h: Heap, A: set<Node>, B: set<Node>, t: Node)
    ensures ApplyStrip(ApplyStrip(h, A, t), B, t) == ApplyStrip(h, A + B, t)
  {
    forall n | n in h && n in A && n in B
      ensures Strip(Strip(h[n], t), t) == Strip(h[n], t)
    {
      StripIdem(h[n], t);
    }
  }

  /** Stripping keeps the tree well formed. */
  lemma StripWf(h: Heap, rank: map<Node, nat>, W: set<Node>, t: Node)
    requires Wf(h, rank)
    ensures Wf(ApplyStrip(h, W, t), rank)
  {
    var h2 := ApplyStrip(h, W, t);
    forall n | n in h2
      ensures n in rank && WfCell(h2, rank, n, h2[n])
    {
      assert WfCell(h, rank, n, h[n]);
      forall k | 0 <= k < |h2[n].content|
        ensures Below(h2, rank, h2[n].content[k], n)
      {
        assert h2[n].content[k] in h2[n].content;
      }
    }
  }

  // ---------------------------------------------------------------------
  // Stripping does not change what the walk visits

  /** On the children left by stripping, the walk visits what it visited on all of them. */
  lemma WalkSeqStrip(h: Heap, rank: map<Node, nat>, b: nat, s: seq<Node>, kind: Kind, t: Node)
    requires Wf(h, rank) && AllBelow(h, rank, s, b)
    ensures AllBelow(h, rank, StripSeq(s, kind, t), b)
    ensures WalkSeq(h, rank, b, StripSeq(s, kind, t), kind, t) == WalkSeq(h, rank, b, s, kind, t)
  {
    if kind == MappingNode {
      WalkPairsStrip(h, rank, b, s, t);
    } else if kind == SequenceNode {
      WalkElemsStrip(h, rank, b, s, t);
    }
  }

  lemma {:induction false} WalkPairsStrip(h: Heap, rank: map<Node, nat>, b: nat, s: seq<Node>, t: Node)
    requires Wf(h, rank) && AllBelow(h, rank, s, b)
    ensures AllBelow(h, rank, StripPairs(s, t), b)
    ensures WalkSeq(h, rank, b, StripPairs(s, t), MappingNode, t) == WalkSeq(h, rank, b, s, MappingNode, t)
    decreases |s|
  {
    var r := StripPairs(s, t);
    assert AllBelow(h, rank, r, b) by {
      forall k | 0 <= k < |r| ensures r[k] in s { }
    }
    if |s| >= 2 {
      var front, key, value := s[..|s| - 2], s[|s| - 2], s[|s| - 1];
      assert s == front + [key, value];
      WalkPairsStrip(h, rank, b, front, t);
      var a := StripPairs(front, t);
      WalkPairsSnoc(h, rank, b, front, key, value, t);
      if value != t {
        assert r == a + [key, value];
        WalkPairsSnoc(h, rank, b, a, key, value, t);
      } else {
        assert r == a;
      }
    }
  }

  /** The walk over pairs with one more pair at the end. */
  lemma WalkPairsSnoc(h: Heap, rank: map<Node, nat>, b: nat, a: seq<Node>, key: Node, value: Node, t: Node)
    requires Wf(h, rank) && AllBelow(h, rank, a + [key, value], b) && AllBelow(h, rank, a, b) && value in h
    ensures WalkSeq(h, rank, b, a + [key, value], MappingNode, t) ==
      WalkSeq(h, rank, b, a, MappingNode, t) + (if value != t then Walked(h, rank, value, t) else {})
  {
    var s := a + [key, value];
    assert s[..|s| - 2] == a && s[|s| - 1] == value;
  }

  lemma {:induction false} WalkElemsStrip(h: Heap, rank: map<Node, nat>, b: nat, s: seq<Node>, t: Node)
    requires Wf(h, rank) && AllBelow(h, rank, s, b)
    ensures AllBelow(h, rank, FilterOut(s, t), b)
    ensures WalkSeq(h, rank, b, FilterOut(s, t), SequenceNode, t) == WalkSeq(h, rank, b, s, SequenceNode, t)
    decreases |s|
  {
    var r := FilterOut(s, t);
    assert AllBelow(h, rank, r, b) by {
      forall k | 0 <= k < |r| ensures r[k] in s { }
    }
    if |s| > 0 {
      var front, last := s[..|s| - 1], s[|s| - 1];
      assert s == front + [last];
      WalkElemsStrip(h, rank, b, front, t);
      var a := FilterOut(front, t);
      WalkElemsSnoc(h, rank, b, front, last, t);
      if last != t {
        assert r == a + [last];
        WalkElemsSnoc(h, rank, b, a, last, t);
      } else {
        assert r == a;
      }
    }
  }

  /** The walk over sequence elements with one more element at the end. */
  lemma WalkElemsSnoc(h: Heap, rank: map<Node, nat>, b: nat, a: seq<Node>, x: Node, t: Node)
    requires Wf(h, rank) && AllBelow(h, rank, a + [x], b) && AllBelow(h, rank, a, b) && x in h
    ensures WalkSeq(h, rank, b, a + [x], SequenceNode, t) ==
      WalkSeq(h, rank, b, a, SequenceNode, t) + (if x != t then Walked(h, rank, x, t) else {})
  {
    var s := a + [x];
    assert s[..|s| - 1] == a && s[|s| - 1] == x;
  }

  /** Stripping any set of nodes leaves the nodes the walk visits from n unchanged. */
  lemma {:induction false} WalkedStable(h: Heap, rank: map<Node, nat>, S: set<Node>, t: Node, n: Node)
    requires Wf(h, rank) && n in h
    ensures Wf(ApplyStrip(h, S, t), rank)
    ensures Walked(ApplyStrip(h, S, t), rank, n, t) == Walked(h, rank, n, t)
    decreases rank[n], 1
  {
    StripWf(h, rank, S, t);
    var h2 := ApplyStrip(h, S, t);
    var c := h[n];
    assert WfCell(h, rank, n, c);
    WalkSeqStable(h, rank, S, t, rank[n], c.content, c.kind);
    if n in S {
      WalkSeqStrip(h2, rank, rank[n], c.content, c.kind, t);
    }
  }

  /** The walk below a list of children is the same on the stripped heap. */
  lemma {:induction false} WalkSeqStable(h: Heap, rank: map<Node, nat>, S: set<Node>, t: Node, b: nat, s: seq<Node>, kind: Kind)
    requires Wf(h, rank) && AllBelow(h, rank, s, b)
    ensures Wf(ApplyStrip(h, S, t), rank) && AllBelow(ApplyStrip(h, S, t), rank, s, b)
    ensures WalkSeq(ApplyStrip(h, S, t), rank, b, s, kind, t) == WalkSeq(h, rank, b, s, kind, t)
    decreases b, 0, |s|
  {
    StripWf(h, rank, S, t);
    if kind == MappingNode && |s| >= 2 {
      WalkSeqStable(h, rank, S, t, b, s[..|s| - 2], kind);
      WalkedStable(h, rank, S, t, s[|s| - 1]);
    } else if (kind == SequenceNode || kind == DocumentNode) && |s| > 0 {
      WalkSeqStable(h, rank, S, t, b, s[..|s| - 1], kind);
      WalkedStable(h, rank, S, t, s[|s| - 1]);
    }
  }

  /** One more child walked: the strip so far, then that child's walk on the stripped heap. */
  lemma WalkStep(h0: Heap, rank: map<Node, nat>, W: set<Node>, c: Node, t: Node)
    requires Wf(h0, rank) && c in h0
    ensures Wf(ApplyStrip(h0, W, t), rank)
    ensures var hk := ApplyStrip(h0, W, t);
      ApplyStrip(hk, Walked(hk, rank, c, t), t) == ApplyStrip(h0, W + Walked(h0, rank, c, t), t)
  {
    WalkedStable(h0, rank, W, t, c);
    StripCompose(h0, W, Walked(h0, rank, c, t), t);
  }

  /** Adding a node that stripping leaves as it is changes nothing. */
  lemma StripUnchanged(h: Heap, W: set<Node>, n: Node, t: Node)
    requires n in h && Strip(h[n], t) == h[n]
    ensures ApplyStrip(h, W + {n}, t) == ApplyStrip(h, W, t)
  {
  }

  // ---------------------------------------------------------------------
  // The walk

  /** The walk from n: n itself and the walk below its children. */
  lemma WalkedUnfold(h: Heap, rank: map<Node, nat>, n: Node, t: Node)
    requires Wf(h, rank) && n in h
    ensures AllBelow(h, rank, h[n].content, rank[n])
    ensures Walked(h, rank, n, t) == WalkSeq(h, rank, rank[n], h[n].content, h[n].kind, t) + {n}
  {
    assert WfCell(h, rank, n, h[n]);
  }

  /** Stripping one more node, outside the set already stripped. */
  lemma StripOne(h0: Heap, W: set<Node>, n: Node, t: Node)
    requires n in h0 && n !in W
    ensures ApplyStrip(h0, W, t)[n := Strip(h0[n], t)] == ApplyStrip(h0, W + {n}, t)
  {
  }

  /** One more child of a document or sequence taken into the walk. */
  lemma WalkSeqNext(h: Heap, rank: map<Node, nat>, b: nat, s: seq<Node>, k: nat, kind: Kind, t: Node)
    requires Wf(h, rank) && AllBelow(h, rank, s, b) && k < |s|
    requires kind == DocumentNode || kind == SequenceNode
    ensures AllBelow(h, rank, s[..k], b) && AllBelow(h, rank, s[..k + 1], b)
    ensures WalkSeq(h, rank, b, s[..k + 1], kind, t) ==
      WalkSeq(h, rank, b, s[..k], kind, t) + (if kind == DocumentNode || s[k] != t then Walked(h, rank, s[k], t) else {})
  {
    assert s[..k + 1][..k] == s[..k];
  }

  /** One more pair of a mapping taken into the walk. */
  lemma WalkPairNext(h: Heap, rank: map<Node, nat>, b: nat, s: seq<Node>, i: nat, t: Node)
    requires Wf(h, rank) && AllBelow(h, rank, s, b) && i + 1 < |s|
    ensures AllBelow(h, rank, s[..i], b) && AllBelow(h, rank, s[..i + 2], b)
    ensures WalkSeq(h, rank, b, s[..i + 2], MappingNode, t) ==
      WalkSeq(h, rank, b, s[..i], MappingNode, t) + (if s[i + 1] != t then Walked(h, rank, s[i + 1], t) else {})
  {
    assert s[..i + 2][..i] == s[..i];
  }

  /** One more pair of a mapping kept or dropped. */
  lemma StripPairsNext(s: seq<Node>, i: nat, t: Node)
    requires i + 1 < |s|
    ensures StripPairs(s[..i + 2], t) == StripPairs(s[..i], t) + (if s[i + 1] == t then [] else [s[i], s[i + 1]])
  {
    var p := s[..i + 2];
    assert p[..|p| - 2] == s[..i] && p[|p| - 2..] == [s[i], s[i + 1]];
  }

  /** One more element of a sequence kept or dropped. */
  lemma FilterOutNext(s: seq<Node>, k: nat, t: Node)
    requires k < |s|
    ensures FilterOut(s[..k + 1], t) == FilterOut(s[..k], t) + (if s[k] == t then [] else [s[k]])
  {
    assert s[..k + 1][..k] == s[..k];
  }

  /** `deleteNodeRecursive`: the target stripped from every node the walk visits from node. */
  method DeleteNodeRecursive(ghost g: Region, node: Node, target: Node)
    requires Valid(g) && node in g.nodes
    modifies g.nodes
    ensures Valid(g)
    ensures Snap(g.nodes) == ApplyStrip(old(Snap(g.nodes)), Walked(old(Snap(g.nodes)), g.rank, node, target), target)
    decreases g.rank[node], 3
  {
    ghost var h0 := Snap(g.nodes);
    assert h0[node] == CellOf(node);
    if node.kind == DocumentNode {
      DeleteInDocument(g, node, target);
    } else if node.kind == MappingNode {
      DeleteInMapping(g, node, target);
    } else if node.kind == SequenceNode {
      DeleteInSequence(g, node, target);
    } else {
      StripUnchanged(h0, {}, node, target);
    }
  }

  /** A document: every child walked, none removed. */
  method DeleteInDocument(ghost g: Region, node: Node, target: Node)
    requires Valid(g) && node in g.nodes && node.kind == DocumentNode
    modifies g.nodes
    ensures Valid(g)
    ensures Snap(g.nodes) == ApplyStrip(old(Snap(g.nodes)), Walked(old(Snap(g.nodes)), g.rank, node, target), target)
    decreases g.rank[node], 2
  {
    ghost var h0 := Snap(g.nodes);
    assert h0[node] == CellOf(node);
    assert WfCell(h0, g.rank, node, h0[node]);
    ghost var b := g.rank[node];
    var content := node.content;
    ghost var W := {};
    for k := 0 to |content|
      invariant W == WalkSeq(h0, g.rank, b, content[..k], DocumentNode, target)
      invariant Snap(g.nodes) == ApplyStrip(h0, W, target)
    {
      W := DeleteDocumentChild(g, h0, content, b, k, target, W);
    }
    assert content[..|content|] == content;
    WalkedUnfold(h0, g.rank, node, target);
    StripUnchanged(h0, W, node, target);
    StripWf(h0, g.rank, W, target);
  }

  /** One pass of the document loop: child k walked. */
  method DeleteDocumentChild(ghost g: Region, ghost h0: Heap, content: seq<Node>, ghost b: nat, k: nat, target: Node,
                             ghost W: set<Node>) returns (ghost W2: set<Node>)
    requires Wf(h0, g.rank) && h0.Keys == g.nodes && AllBelow(h0, g.rank, content, b) && k < |content|
    requires W == WalkSeq(h0, g.rank, b, content[..k], DocumentNode, target)
    requires Snap(g.nodes) == ApplyStrip(h0, W, target)
    modifies g.nodes
    ensures W2 == WalkSeq(h0, g.rank, b, content[..k + 1], DocumentNode, target)
    ensures Snap(g.nodes) == ApplyStrip(h0, W2, target)
    decreases b, 0
  {
    WalkSeqNext(h0, g.rank, b, content, k, DocumentNode, target);
    DeleteChild(g, h0, W, content[k], target);
    W2 := W + Walked(h0, g.rank, content[k], target);
  }

  /** One child walked, on top of the nodes of W already stripped. */
  method DeleteChild(ghost g: Region, ghost h0: Heap, ghost W: set<Node>, child: Node, target: Node)
    requires Wf(h0, g.rank) && child in h0 && h0.Keys == g.nodes
    requires Snap(g.nodes) == ApplyStrip(h0, W, target)
    modifies g.nodes
    ensures Snap(g.nodes) == ApplyStrip(h0, W + Walked(h0, g.rank, child, target), target)
    decreases g.rank[child], 4
  {
    StripWf(h0, g.rank, W, target);
    WalkStep(h0, g.rank, W, child, target);
    DeleteNodeRecursive(g, child, target);
  }

  /** A mapping: pairs whose value is the target dropped, the other values walked. */
  method DeleteInMapping(ghost g: Region, node: Node, target: Node)
    requires Valid(g) && node in g.nodes && node.kind == MappingNode
    modifies g.nodes
    ensures Valid(g)
    ensures Snap(g.nodes) == ApplyStrip(old(Snap(g.nodes)), Walked(old(Snap(g.nodes)), g.rank, node, target), target)
    decreases g.rank[node], 2
  {
    ghost var h0 := Snap(g.nodes);
    assert h0[node] == CellOf(node);
    assert WfCell(h0, g.rank, node, h0[node]);
    var content := node.content;
    WalkedUnfold(h0, g.rank, node, target);
    ghost var W := WalkSeq(h0, g.rank, g.rank[node], content, MappingNode, target);
    var newContent := DeletePairs(g, content, g.rank[node], target);
    assert Snap(g.nodes) == ApplyStrip(h0, W, target);
    SetContent(g, h0, node, newContent, W, target);
    assert Snap(g.nodes) == ApplyStrip(h0, Walked(h0, g.rank, node, target), target);
  }

  /** The loop over the pairs of a mapping: returns the pairs kept, after walking their values. */
  method DeletePairs(ghost g: Region, content: seq<Node>, ghost b: nat, target: Node) returns (newContent: seq<Node>)
    requires Valid(g) && AllBelow(Snap(g.nodes), g.rank, content, b) && |content| % 2 == 0
    modifies g.nodes
    ensures Valid(g) && newContent == StripPairs(content, target)
    ensures Snap(g.nodes) == ApplyStrip(old(Snap(g.nodes)), WalkSeq(old(Snap(g.nodes)), g.rank, b, content, MappingNode, target), target)
    decreases b, 1
  {
    ghost var h0 := Snap(g.nodes);
    newContent := [];
    ghost var W := {};
    var pairs := |content| / 2;
    for p := 0 to pairs
      invariant newContent == StripPairs(content[..2 * p], target)
      invariant W == WalkSeq(h0, g.rank, b, content[..2 * p], MappingNode, target)
      invariant Snap(g.nodes) == ApplyStrip(h0, W, target)
    {
      newContent, W := DeletePair(g, h0, content, b, 2 * p, target, newContent, W);
    }
    assert content[..2 * pairs] == content;
    StripWf(h0, g.rank, W, target);
  }

  /** One pass of the pairs loop: the pair at i kept unless its value is the target, and its value walked. */
  method DeletePair(ghost g: Region, ghost h0: Heap, content: seq<Node>, ghost b: nat, i: nat, target: Node,
                    newContent: seq<Node>, ghost W: set<Node>) returns (newContent2: seq<Node>, ghost W2: set<Node>)
    requires Wf(h0, g.rank) && h0.Keys == g.nodes && AllBelow(h0, g.rank, content, b) && i + 1 < |content|
    requires newContent == StripPairs(content[..i], target)
    requires W == WalkSeq(h0, g.rank, b, content[..i], MappingNode, target)
    requires Snap(g.nodes) == ApplyStrip(h0, W, target)
    modifies g.nodes
    ensures newContent2 == StripPairs(content[..i + 2], target)
    ensures W2 == WalkSeq(h0, g.rank, b, content[..i + 2], MappingNode, target)
    ensures Snap(g.nodes) == ApplyStrip(h0, W2, target)
    decreases b, 0
  {
    WalkPairNext(h0, g.rank, b, content, i, target);
    StripPairsNext(content, i, target);
    var key, value := content[i], content[i + 1];
    newContent2, W2 := newContent, W;
    if value != target {
      newContent2 := newContent + [key, value];
      DeleteChild(g, h0, W, value, target);
      W2 := W + Walked(h0, g.rank, value, target);
    }
  }

  /** A sequence: target elements dropped, the others walked. */
  method DeleteInSequence(ghost g: Region, node: Node, target: Node)
    requires Valid(g) && node in g.nodes && node.kind == SequenceNode
    modifies g.nodes
    ensures Valid(g)
    ensures Snap(g.nodes) == ApplyStrip(old(Snap(g.nodes)), Walked(old(Snap(g.nodes)), g.rank, node, target), target)
    decreases g.rank[node], 2
  {
    ghost var h0 := Snap(g.nodes);
    assert h0[node] == CellOf(node);
    assert WfCell(h0, g.rank, node, h0[node]);
    var content := node.content;
    WalkedUnfold(h0, g.rank, node, target);
    ghost var W := WalkSeq(h0, g.rank, g.rank[node], content, SequenceNode, target);
    var newContent := DeleteElements(g, content, g.rank[node], target);
    assert Snap(g.nodes) == ApplyStrip(h0, W, target);
    SetContent(g, h0, node, newContent, W, target);
    assert Snap(g.nodes) == ApplyStrip(h0, Walked(h0, g.rank, node, target), target);
  }

  /** The loop over the elements of a sequence: returns the elements kept, after walking them. */
  method DeleteElements(ghost g: Region, content: seq<Node>, ghost b: nat, target: Node) returns (newContent: seq<Node>)
    requires Valid(g) && AllBelow(Snap(g.nodes), g.rank, content, b)
    modifies g.nodes
    ensures Valid(g) && newContent == FilterOut(content, target)
    ensures Snap(g.nodes) == ApplyStrip(old(Snap(g.nodes)), WalkSeq(old(Snap(g.nodes)), g.rank, b, content, SequenceNode, target), target)
    decreases b, 1
  {
    ghost var h0 := Snap(g.nodes);
    newContent := [];
    ghost var W := {};
    for k := 0 to |content|
      invariant newContent == FilterOut(content[..k], target)
      invariant W == WalkSeq(h0, g.rank, b, content[..k], SequenceNode, target)
      invariant Snap(g.nodes) == ApplyStrip(h0, W, target)
    {
      newContent, W := DeleteElement(g, h0, content, b, k, target, newContent, W);
    }
    assert content[..|content|] == content;
    StripWf(h0, g.rank, W, target);
  }

  /** One pass of the elements loop: element k kept unless it is the target, and walked. */
  method DeleteElement(ghost g: Region, ghost h0: Heap, content: seq<Node>, ghost b: nat, k: nat, target: Node,
                       newContent: seq<Node>, ghost W: set<Node>) returns (newContent2: seq<Node>, ghost W2: set<Node>)
    requires Wf(h0, g.rank) && h0.Keys == g.nodes && AllBelow(h0, g.rank, content, b) && k < |content|
    requires newContent == FilterOut(content[..k], target)
    requires W == WalkSeq(h0, g.rank, b, content[..k], SequenceNode, target)
    requires Snap(g.nodes) == ApplyStrip(h0, W, target)
    modifies g.nodes
    ensures newContent2 == FilterOut(content[..k + 1], target)
    ensures W2 == WalkSeq(h0, g.rank, b, content[..k + 1], SequenceNode, target)
    ensures Snap(g.nodes) == ApplyStrip(h0, W2, target)
    decreases b, 0
  {
    WalkSeqNext(h0, g.rank, b, content, k, SequenceNode, target);
    FilterOutNext(content, k, target);
    var elem := content[k];
    newContent2, W2 := newContent, W;
    if elem != target {
      newContent2 := newContent + [elem];
      DeleteChild(g, h0, W, elem, target);
      W2 := W + Walked(h0, g.rank, elem, target);
    }
  }

  /** `node.Content = newContent` at the end of a mapping or sequence visit. */
  method SetContent(ghost g: Region, ghost h0: Heap, node: Node, newContent: seq<Node>, ghost W: set<Node>, ghost target: Node)
    requires Wf(h0, g.rank) && node in h0 && h0.Keys == g.nodes
    requires node !in W && newContent == Strip(h0[node], target).content
    requires Snap(g.nodes) == ApplyStrip(h0, W, target)
    modifies node
    ensures Valid(g)
    ensures Snap(g.nodes) == ApplyStrip(h0, W + {node}, target)
  {
    ghost var hk := Snap(g.nodes);
    assert CellOf(node) == h0[node];
    node.content := newContent;
    assert CellOf(node) == Strip(h0[node], target);
    assert Snap(g.nodes) == hk[node := CellOf(node)];
    StripOne(h0, W, node, target);
    StripWf(h0, g.rank, W + {node}, target);
  }

  // ---------------------------------------------------------------------
  // Deleting each target in turn

  /** `deleteNode`: one target deleted from the whole tree under root. */
  ghost function DeleteOne(h: Heap, rank: map<Node, nat>, root: Node, t: Node): (r: Heap)
    requires Wf(h, rank) && root in h
    ensures Wf(r, rank) && r.Keys == h.Keys
  {
    StripWf(h, rank, Walked(h, rank, root, t), t);
    ApplyStrip(h, Walked(h, rank, root, t), t)
  }

  /** The targets deleted one after the other, in order. */
  ghost function DeleteAll(h: Heap, rank: map<Node, nat>, root: Node, ts: seq<Node>): (r: Heap)
    requires Wf(h, rank) && root in h
    ensures Wf(r, rank) && r.Keys == h.Keys
  {
    if |ts| == 0 then h
    else DeleteOne(DeleteAll(h, rank, root, ts[..|ts| - 1]), rank, root, ts[|ts| - 1])
  }

  /** `deleteNode` */
  method DeleteNode(ghost g: Region, root: Node, target: Node)
    requires Valid(g) && root in g.nodes
    modifies g.nodes
    ensures Valid(g)
    ensures Snap(g.nodes) == DeleteOne(old(Snap(g.nodes)), g.rank, root, target)
  {
    DeleteNodeRecursive(g, root, target);
  }

  /** The loop of `delete` over the nodes found. */
  method DeleteNodes(ghost g: Region, root: Node, targets: seq<Node>)
    requires Valid(g) && root in g.nodes
    modifies g.nodes
    ensures Valid(g)
    ensures Snap(g.nodes) == DeleteAll(old(Snap(g.nodes)), g.rank, root, targets)
  {
    ghost var h0 := Snap(g.nodes);
    for k := 0 to |targets|
      invariant Valid(g)
      invariant Snap(g.nodes) == DeleteAll(h0, g.rank, root, targets[..k])
    {
      assert targets[..k + 1][..k] == targets[..k];
      DeleteNode(g, root, targets[k]);
    }
    assert targets[..|targets|] == targets;
  }

  // ---------------------------------------------------------------------
  // What a deletion does

  /** A mapping's content read as (key, value) pairs, counted from the end. */
  function Pairs(s: seq<Node>): (r: seq<(Node, Node)>)
    ensures |r| == |s| / 2
  {
    if |s| < 2 then [] else Pairs(s[..|s| - 2]) + [(s[|s| - 2], s[|s| - 1])]
  }

  /** A mapping keeps exactly the pairs whose value is not the target. */
  lemma {:induction false} StripPairsMembers(s: seq<Node>, t: Node)
    ensures forall p :: p in Pairs(StripPairs(s, t)) <==> p in Pairs(s) && p.1 != t
  {
    if |s| >= 2 {
      var front := s[..|s| - 2];
      StripPairsMembers(front, t);
      var a := StripPairs(front, t);
      if s[|s| - 1] != t {
        var r := a + s[|s| - 2..];
        assert StripPairs(s, t) == r;
        assert r[..|r| - 2] == a && r[|r| - 2] == s[|s| - 2] && r[|r| - 1] == s[|s| - 1];
        assert Pairs(r) == Pairs(a) + [(s[|s| - 2], s[|s| - 1])];
      } else {
        assert StripPairs(s, t) == a;
      }
    }
  }

  /** A sequence keeps exactly the elements other than the target. */
  lemma {:induction false} FilterOutMembers(s: seq<Node>, t: Node)
    ensures forall x :: x in FilterOut(s, t) <==> x in s && x != t
  {
    if |s| > 0 {
      FilterOutMembers(s[..|s| - 1], t);
      assert s == s[..|s| - 1] + [s[|s| - 1]];
    }
  }

  /** The positions of the elements other than t. */
  function KeptElements(s: seq<Node>, t: Node): seq<nat>
  {
    if |s| == 0 then []
    else KeptElements(s[..|s| - 1], t) + (if s[|s| - 1] == t then [] else [|s| - 1])
  }

  /**
   * Removing t from a sequence keeps the other elements in their original
   * order: the result is the subsequence of exactly those positions.
   */
  lemma {:induction false} FilterOutOrder(s: seq<Node>, t: Node)
    ensures KeptInOrder(FilterOut(s, t), s, KeptElements(s, t), (x: Node) => x != t)
  {
    if |s| > 0 {
      var front := s[..|s| - 1];
      FilterOutOrder(front, t);
      FilterOutStep(s, t);
      KeptInOrderSnoc(FilterOut(front, t), front, KeptElements(front, t), (x: Node) => x != t, s[|s| - 1]);
    }
  }

  /** One step of the filter, with the positions it keeps. */
  lemma FilterOutStep(s: seq<Node>, t: Node)
    requires |s| > 0
    ensures var front, x := s[..|s| - 1], s[|s| - 1];
      s == front + [x] &&
      FilterOut(s, t) == FilterOut(front, t) + (if x != t then [x] else []) &&
      KeptElements(s, t) == KeptElements(front, t) + (if x != t then [|front|] else [])
  {
    assert s == s[..|s| - 1] + [s[|s| - 1]];
  }

  /** The positions, among the pairs of s, of those whose value is not t. */
  function KeptPairs(s: seq<Node>, t: Node): seq<nat>
  {
    if |s| < 2 then []
    else KeptPairs(s[..|s| - 2], t) + (if s[|s| - 1] == t then [] else [|s| / 2 - 1])
  }

  /**
   * Removing the pairs whose value is t keeps the other pairs in their
   * original order: the result's pairs are the subsequence of exactly
   * those positions.
   */
  lemma {:induction false} StripPairsOrder(s: seq<Node>, t: Node)
    ensures KeptInOrder(Pairs(StripPairs(s, t)), Pairs(s), KeptPairs(s, t), (p: (Node, Node)) => p.1 != t)
  {
    if |s| >= 2 {
      var front := s[..|s| - 2];
      var pair := (s[|s| - 2], s[|s| - 1]);
      StripPairsOrder(front, t);
      StripPairsStep(s, t);
      KeptInOrderSnoc(Pairs(StripPairs(front, t)), Pairs(front), KeptPairs(front, t),
                      (p: (Node, Node)) => p.1 != t, pair);
    }
  }

  /** One step of the strip, seen on pairs. */
  lemma StripPairsStep(s: seq<Node>, t: Node)
    requires |s| >= 2
    ensures var front := s[..|s| - 2];
      var pair := (s[|s| - 2], s[|s| - 1]);
      Pairs(s) == Pairs(front) + [pair] &&
      Pairs(StripPairs(s, t)) == Pairs(StripPairs(front, t)) + (if pair.1 == t then [] else [pair]) &&
      KeptPairs(s, t) == KeptPairs(front, t) + (if pair.1 == t then [] else [|Pairs(front)|])
  {
    var front := s[..|s| - 2];
    var a := StripPairs(front, t);
    if s[|s| - 1] != t {
      var r := a + s[|s| - 2..];
      assert StripPairs(s, t) == r;
      assert r[..|r| - 2] == a && r[|r| - 2] == s[|s| - 2] && r[|r| - 1] == s[|s| - 1];
      assert Pairs(r) == Pairs(a) + [(s[|s| - 2], s[|s| - 1])];
    } else {
      assert StripPairs(s, t) == a;
    }
  }

  /**
   * After a deletion, no mapping or sequence the walk reaches still holds
   * the target as a value or element, and every other pair and element
   * they held is still there, in its original order.
   */
  lemma DeleteDetaches(h: Heap, rank: map<Node, nat>, root: Node, t: Node, n: Node)
    requires Wf(h, rank) && root in h
    requires n in Walked(DeleteOne(h, rank, root, t), rank, root, t)
    ensures var c := DeleteOne(h, rank, root, t)[n];
      (c.kind == MappingNode ==>
        (forall p :: p in Pairs(c.content) <==> p in Pairs(h[n].content) && p.1 != t) &&
        KeptInOrder(Pairs(c.content), Pairs(h[n].content), KeptPairs(h[n].content, t), (p: (Node, Node)) => p.1 != t)) &&
      (c.kind == SequenceNode ==>
        (forall x :: x in c.content <==> x in h[n].content && x != t) &&
        KeptInOrder(c.content, h[n].content, KeptElements(h[n].content, t), (x: Node) => x != t))
  {
    WalkedStable(h, rank, Walked(h, rank, root, t), t, root);
    StripPairsMembers(h[n].content, t);
    FilterOutMembers(h[n].content, t);
    StripPairsOrder(h[n].content, t);
    FilterOutOrder(h[n].content, t);
  }

  /** A deletion changes only the content of the nodes its walk reaches. */
  lemma DeleteFrame(h: Heap, rank: map<Node, nat>, root: Node, t: Node, n: Node)
    requires Wf(h, rank) && root in h && n in h
    ensures var c := DeleteOne(h, rank, root, t)[n];
      c.kind == h[n].kind && c.value == h[n].value && c.tag == h[n].tag && c.alias == h[n].alias &&
      (h[n].kind == DocumentNode ==> c.content == h[n].content) &&
      (n !in Walked(h, rank, root, t) ==> c == h[n])
  {
  }

  /** Deleting the same target twice is deleting it once. */
  lemma DeleteIdempotent(h: Heap, rank: map<Node, nat>, root: Node, t: Node)
    requires Wf(h, rank) && root in h
    ensures DeleteOne(DeleteOne(h, rank, root, t), rank, root, t) == DeleteOne(h, rank, root, t)
  {
    var W := Walked(h, rank, root, t);
    WalkedStable(h, rank, W, t, root);
    StripCompose(h, W, W, t);
    assert W + W == W;
  }
}
