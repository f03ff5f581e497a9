/**
 * yaml.v3's `Node.Encode`, which the engine calls to turn a rule's value
 * into a node. The library is foreign code; it is modelled by what its
 * output is, a mirror of the value: a scalar node with the value's text
 * and its resolved tag, or a mapping or sequence node whose fresh
 * children mirror the parts. Decoding a node back into a value is the
 * partner that states the mirror loses nothing.
 */
module Encoding {
  import opened Wrappers
  import opened Strconv
  import opened YamlTree
  import opened EngineTypes

  // ---------------------------------------------------------------------
  // What an encoded node looks like

  /** A plain scalar cell: no children, no alias. */
  predicate IsScalar(c: Cell, text: string, tag: string)
  {
    c.kind == ScalarNode && c.value == text && c.tag == tag && c.content == [] && c.alias == null
  }

  function BoolText(b: bool): string
  {
    if b then "true" else "false"
  }

  /** Node n of h mirrors v. */
  ghost predicate Mirrors(h: Heap, n: Node, v: Value)
    decreases v, 1
  {
    n in h && MirrorsCell(h, h[n], v)
  }

  /**
   * Cell c mirrors v: the text and tag yaml.v3 gives each kind of value,
   * a mapping with one `!!str` key node and one value node per entry, in
   * entry order, and a sequence with one node per item.
   */
  ghost predicate MirrorsCell(h: Heap, c: Cell, v: Value)
    decreases v, 0
  {
    match v
    case Null => IsScalar(c, "null", "!!null")
    case Bool(b) => IsScalar(c, BoolText(b), "!!bool")
    case Int(i) => IsScalar(c, Itoa(i), "!!int")
    case Float(text) => IsScalar(c, text, "!!float")
    case Str(s) => IsScalar(c, s, "!!str")
    case Map(es) =>
      c.kind == MappingNode && c.value == "" && c.tag == "!!map" && c.alias == null &&
      |c.content| == 2 * |es| &&
      forall j | 0 <= j < |es| ::
        c.content[2 * j] in h && IsScalar(h[c.content[2 * j]], es[j].key, "!!str") &&
        Mirrors(h, c.content[2 * j + 1], es[j].value)
    case List(vs) =>
      c.kind == SequenceNode && c.value == "" && c.tag == "!!seq" && c.alias == null &&
      |c.content| == |vs| &&
      forall j | 0 <= j < |vs| :: Mirrors(h, c.content[j], vs[j])
  }

  /** h2 holds every node of h1 with the same fields. */
  ghost predicate Extends(h2: Heap, h1: Heap)
  {
    forall m | m in h1 :: m in h2 && h2[m] == h1[m]
  }

  /** A mirror stays a mirror when the heap grows. */
  lemma {:induction false} MirrorsMono(h1: Heap, h2: Heap, c: Cell, v: Value)
    requires Extends(h2, h1) && MirrorsCell(h1, c, v)
    ensures MirrorsCell(h2, c, v)
    decreases v
  {
    match v
    case Map(es) =>
      forall j | 0 <= j < |es|
        ensures Mirrors(h2, c.content[2 * j + 1], es[j].value)
      {
        assert Mirrors(h1, c.content[2 * j + 1], es[j].value);
        MirrorsMono(h1, h2, h1[c.content[2 * j + 1]], es[j].value);
      }
    case List(vs) =>
      forall j | 0 <= j < |vs|
        ensures Mirrors(h2, c.content[j], vs[j])
      {
        assert Mirrors(h1, c.content[j], vs[j]);
        MirrorsMono(h1, h2, h1[c.content[j]], vs[j]);
      }
    case _ =>
  }

  // ---------------------------------------------------------------------
  // Reading a node back as a value

  /** The value a scalar's resolved tag and text denote. */
  function DecodeScalar(tag: string, text: string): (r: Option<Value>)
    ensures r.Some? ==> tag in {"!!null", "!!bool", "!!int", "!!float", "!!str"}
  {
    if tag == "!!null" then Some(Null)
    else if tag == "!!bool" then
      (if text == "true" then Some(Bool(true)) else if text == "false" then Some(Bool(false)) else None)
    else if tag == "!!int" then
      (match Atoi(text) case Some(i) => Some(Int(i)) case None => None)
    else if tag == "!!float" then Some(Float(text))
    else if tag == "!!str" then Some(Str(text))
    else None
  }

  /** The value node n holds: scalars by tag, mappings by `!!str` keys, sequences item by item. */
  ghost function Decoded(h: Heap, rank: map<Node, nat>, n: Node): Option<Value>
    requires Wf(h, rank) && n in h
    decreases rank[n], 1, 0
  {
    var c := h[n];
    if c.kind == ScalarNode then DecodeScalar(c.tag, c.value)
    else if c.kind == SequenceNode then
      match DecodeItems(h, rank, n, |c.content|)
      case Some(vs) => Some(List(vs))
      case None => None
    else if c.kind == MappingNode then
      match DecodeEntries(h, rank, n, |c.content| / 2)
      case Some(es) => Some(Map(es))
      case None => None
    else None
  }

  /** The first k items of sequence n. */
  ghost function DecodeItems(h: Heap, rank: map<Node, nat>, n: Node, k: nat): Option<seq<Value>>
    requires Wf(h, rank) && n in h && k <= |h[n].content|
    decreases rank[n], 0, k
  {
    if k == 0 then Some([])
    else
      match DecodeItems(h, rank, n, k - 1)
      case None => None
      case Some(vs) =>
        match Decoded(h, rank, h[n].content[k - 1])
        case None => None
        case Some(v) => Some(vs + [v])
  }

  /** The first k entries of mapping n. */
  ghost function DecodeEntries(h: Heap, rank: map<Node, nat>, n: Node, k: nat): Option<seq<Entry>>
    requires Wf(h, rank) && n in h && 2 * k <= |h[n].content|
    decreases rank[n], 0, k
  {
    if k == 0 then Some([])
    else
      match DecodeEntries(h, rank, n, k - 1)
      case None => None
      case Some(es) =>
        var key := h[h[n].content[2 * k - 2]];
        if key.kind != ScalarNode || key.tag != "!!str" then None
        else
          match Decoded(h, rank, h[n].content[2 * k - 1])
          case None => None
          case Some(v) => Some(es + [Entry(key.value, v)])
  }

  /** Round trip: a node that mirrors v reads back as v. */
  lemma {:induction false} MirrorDecodes(h: Heap, rank: map<Node, nat>, n: Node, v: Value)
    requires Wf(h, rank) && Mirrors(h, n, v)
    ensures Decoded(h, rank, n) == Some(v)
    decreases v, 1
  {
    match v
    case Int(i) =>
      AtoiItoa(i);
    case List(vs) =>
      ItemsDecode(h, rank, n, vs, |vs|);
      assert vs[..|vs|] == vs;
    case Map(es) =>
      EntriesDecode(h, rank, n, es, |es|);
      assert es[..|es|] == es;
      assert |h[n].content| / 2 == |es|;
    case _ =>
  }

  /** The first k items of a mirrored list read back in order. */
  lemma {:induction false} ItemsDecode(h: Heap, rank: map<Node, nat>, n: Node, vs: seq<Value>, k: nat)
    requires Wf(h, rank) && n in h && |h[n].content| == |vs| && k <= |vs|
    requires forall j | 0 <= j < |vs| :: Mirrors(h, h[n].content[j], vs[j])
    ensures DecodeItems(h, rank, n, k) == Some(vs[..k])
    decreases List(vs), 0, k
  {
    if k > 0 {
      var j := k - 1;
      ItemsDecode(h, rank, n, vs, j);
      var item := h[n].content[j];
      assert Mirrors(h, item, vs[j]);
      MirrorDecodes(h, rank, item, vs[j]);
      PrefixSnoc(vs, j);
    }
  }

  /** The first k entries of a mirrored map read back in order. */
  lemma {:induction false} EntriesDecode(h: Heap, rank: map<Node, nat>, n: Node, es: seq<Entry>, k: nat)
    requires Wf(h, rank) && n in h && MirrorsCell(h, h[n], Map(es)) && k <= |es|
    ensures DecodeEntries(h, rank, n, k) == Some(es[..k])
    decreases Map(es), 0, k
  {
    if k > 0 {
      EntriesDecode(h, rank, n, es, k - 1);
      EntryMirrorDecodes(h, rank, n, es, k - 1);
    }
  }

  /** One more entry of a mirrored map read back. */
  lemma EntryMirrorDecodes(h: Heap, rank: map<Node, nat>, n: Node, es: seq<Entry>, j: nat)
    requires Wf(h, rank) && n in h && MirrorsCell(h, h[n], Map(es)) && j < |es|
    requires DecodeEntries(h, rank, n, j) == Some(es[..j])
    ensures DecodeEntries(h, rank, n, j + 1) == Some(es[..j + 1])
    decreases Map(es), 0, 0
  {
    var key, val := h[n].content[2 * j], h[n].content[2 * j + 1];
    assert key in h && IsScalar(h[key], es[j].key, "!!str") && Mirrors(h, val, es[j].value);
    MirrorDecodes(h, rank, val, es[j].value);
    EntryDecodes(h, rank, n, es, j);
  }

  /** One more entry read back: a `!!str` key and a value that decodes. */
  lemma EntryDecodes(h: Heap, rank: map<Node, nat>, n: Node, es: seq<Entry>, k: nat)
    requires Wf(h, rank) && n in h && k < |es| && |h[n].content| == 2 * |es|
    requires DecodeEntries(h, rank, n, k) == Some(es[..k])
    requires IsScalar(h[h[n].content[2 * k]], es[k].key, "!!str")
    requires Decoded(h, rank, h[n].content[2 * k + 1]) == Some(es[k].value)
    ensures DecodeEntries(h, rank, n, k + 1) == Some(es[..k + 1])
  {
    assert 2 * (k + 1) - 2 == 2 * k;
    assert es[k] == Entry(es[k].key, es[k].value);
    PrefixSnoc(es, k);
  }

  // ---------------------------------------------------------------------
  // Grafting an encoded subtree into a region

  /** Heap h with every target's fields overwritten by c. */
  ghost function Overwritten(h: Heap, targets: set<Node>, c: Cell): (r: Heap)
    ensures r.Keys == h.Keys
  {
    map n | n in h :: if n in targets then c else h[n]
  }

  /**
   * Ranks after a graft: the fresh nodes keep the ranks of their encoding
   * and every existing node is lifted above all of them.
   */
  ghost function Lifted(nodes: set<Node>, rank: map<Node, nat>, fr: map<Node, nat>, lift: nat): (r: map<Node, nat>)
    requires nodes <= rank.Keys
    ensures r.Keys == nodes + fr.Keys
  {
    map n | n in nodes + fr.Keys :: if n in fr then fr[n] else rank[n] + lift
  }

  /**
   * Overwriting targets with the cell of a fresh node top, and adding the
   * fresh nodes, keeps the tree well formed once every existing node is
   * lifted above all the fresh ones.
   */
  lemma GraftWf(h: Heap, rank: map<Node, nat>, hF: Heap, fr: map<Node, nat>, targets: set<Node>, top: Node, lift: nat)
    requires Wf(h, rank) && Wf(hF, fr) && fr.Keys == hF.Keys && h.Keys !! hF.Keys && top in hF
    requires hF[top].alias == null && hF[top].kind != AliasNode
    requires forall m | m in fr :: fr[m] < lift
    ensures Wf(Overwritten(h, targets, hF[top]) + hF, Lifted(h.Keys, rank, fr, lift))
  {
    var c := hF[top];
    assert WfCell(hF, fr, top, c);
    var h2 := Overwritten(h, targets, c) + hF;
    var r2 := Lifted(h.Keys, rank, fr, lift);
    forall n | n in h2
      ensures n in r2 && WfCell(h2, r2, n, h2[n])
    {
      if n in hF {
        assert WfCell(hF, fr, n, hF[n]);
      } else if n in targets {
        forall k | 0 <= k < |c.content|
          ensures Below(h2, r2, c.content[k], n)
        {
          assert Below(hF, fr, c.content[k], top);
        }
      } else {
        assert WfCell(h, rank, n, h[n]);
      }
    }
  }

  /** The ranks of a single fresh node on top of an encoded region. */
  lemma WfAddTop(hF: Heap, fr: map<Node, nat>, top: Node, c: Cell, hi: nat)
    requires Wf(hF, fr) && fr.Keys == hF.Keys && top !in hF
    requires forall m | m in fr :: fr[m] <= hi
    requires forall k | 0 <= k < |c.content| :: c.content[k] in hF
    requires c.alias == null && c.kind != AliasNode && (c.kind == MappingNode ==> |c.content| % 2 == 0)
    ensures Wf(hF[top := c], fr[top := hi + 1])
  {
    var h2 := hF[top := c];
    var r2 := fr[top := hi + 1];
    forall n | n in h2
      ensures n in r2 && WfCell(h2, r2, n, h2[n])
    {
      if n != top {
        assert WfCell(hF, fr, n, hF[n]);
      }
    }
  }

  /** Two disjoint well-formed regions side by side. */
  lemma WfUnion(h1: Heap, r1: map<Node, nat>, h2: Heap, r2: map<Node, nat>)
    requires Wf(h1, r1) && Wf(h2, r2) && r1.Keys == h1.Keys && r2.Keys == h2.Keys && h1.Keys !! h2.Keys
    ensures Wf(h1 + h2, r1 + r2)
  {
    var h := h1 + h2;
    var r := r1 + r2;
    forall n | n in h
      ensures n in r && WfCell(h, r, n, h[n])
    {
      if n in h2 {
        assert WfCell(h2, r2, n, h2[n]);
      } else {
        assert WfCell(h1, r1, n, h1[n]);
      }
    }
  }

  // ---------------------------------------------------------------------
  // The encoder

  /**
   * `Node.Encode`: a fresh node tree mirroring v. Its nodes come with
   * ranks, all at most the top node's.
   */
  method Encode(v: Value) returns (top: Node, ghost F: set<Node>, ghost fr: map<Node, nat>)
    ensures fresh(F) && top in F && fr.Keys == F
    ensures Wf(Snap(F), fr)
    ensures forall m | m in F :: fr[m] <= fr[top]
    ensures Mirrors(Snap(F), top, v)
    decreases v, 4
  {
    match v
    case Null =>
      top := new Node(ScalarNode, "null", "!!null", [], null);
      F, fr := {top}, map[top := 0];
    case Bool(b) =>
      top := new Node(ScalarNode, BoolText(b), "!!bool", [], null);
      F, fr := {top}, map[top := 0];
    case Int(i) =>
      top := new Node(ScalarNode, Itoa(i), "!!int", [], null);
      F, fr := {top}, map[top := 0];
    case Float(text) =>
      top := new Node(ScalarNode, text, "!!float", [], null);
      F, fr := {top}, map[top := 0];
    case Str(s) =>
      top := new Node(ScalarNode, s, "!!str", [], null);
      F, fr := {top}, map[top := 0];
    case List(_) =>
      top, F, fr := EncodeList(v);
    case Map(_) =>
      top, F, fr := EncodeMap(v);
  }

  /** A sequence node over the items' encodings, in order. */
  method EncodeList(v: Value) returns (top: Node, ghost F: set<Node>, ghost fr: map<Node, nat>)
    requires v.List?
    ensures fresh(F) && top in F && fr.Keys == F
    ensures Wf(Snap(F), fr)
    ensures forall m | m in F :: fr[m] <= fr[top]
    ensures Mirrors(Snap(F), top, v)
    decreases v, 2
  {
    var content: seq<Node>;
    ghost var hF: Heap;
    ghost var hi: nat;
    content, F, fr, hF, hi := EncodeItems(v);
    top := new Node(SequenceNode, "", "!!seq", content, null);
    assert Snap(F) == hF;
    AddTop(hF, fr, top, CellOf(top), hi, v);
    assert Snap(F + {top}) == hF[top := CellOf(top)];
    F, fr := F + {top}, fr[top := hi + 1];
  }

  /** The items' encodings, in order, and the region they make up together. */
  method EncodeItems(v: Value) returns (content: seq<Node>, ghost F: set<Node>, ghost fr: map<Node, nat>, ghost hF: Heap, ghost hi: nat)
    requires v.List?
    ensures fresh(F) && hF == Snap(F)
    ensures Encoded(hF, fr, hi) && ItemsMirrored(hF, content, v.items) && |content| == |v.items|
    ensures forall k | 0 <= k < |content| :: content[k] in hF
    decreases v, 1
  {
    content := [];
    hi := 0;
    hF := map[];
    F, fr := {}, map[];
    for j := 0 to |v.items|
      invariant |content| == j && fresh(F) && hF == Snap(F)
      invariant Encoded(hF, fr, hi) && ItemsMirrored(hF, content, v.items)
      invariant forall k | 0 <= k < |content| :: content[k] in hF
    {
      content, F, fr, hF, hi := EncodeNextItem(v, content, F, fr, hF, hi);
    }
  }

  /** One pass of the items loop: the next item's encoding joins the region. */
  method EncodeNextItem(v: Value, content: seq<Node>, ghost F: set<Node>, ghost fr: map<Node, nat>, ghost hF: Heap, ghost hi: nat)
    returns (content2: seq<Node>, ghost F2: set<Node>, ghost fr2: map<Node, nat>, ghost hF2: Heap, ghost hi2: nat)
    requires v.List? && |content| < |v.items| && hF == Snap(F)
    requires Encoded(hF, fr, hi) && ItemsMirrored(hF, content, v.items)
    requires forall k | 0 <= k < |content| :: content[k] in hF
    ensures |content2| == |content| + 1 && F <= F2 && fresh(F2 - F) && hF2 == Snap(F2)
    ensures Encoded(hF2, fr2, hi2) && ItemsMirrored(hF2, content2, v.items)
    ensures forall k | 0 <= k < |content2| :: content2[k] in hF2
    decreases v, 0
  {
    var c, Fc, frc := Encode(v.items[|content|]);
    assert Snap(F) == hF;
    fr2, hi2 := ExtendItems(F, fr, hi, Fc, frc, c, content, v.items);
    content2 := content + [c];
    F2 := F + Fc;
    hF2 := Snap(F2);
  }

  /** A mapping node over a `!!str` key node and the value's encoding per entry, in order. */
  method EncodeMap(v: Value) returns (top: Node, ghost F: set<Node>, ghost fr: map<Node, nat>)
    requires v.Map?
    ensures fresh(F) && top in F && fr.Keys == F
    ensures Wf(Snap(F), fr)
    ensures forall m | m in F :: fr[m] <= fr[top]
    ensures Mirrors(Snap(F), top, v)
    decreases v, 3
  {
    var content: seq<Node>;
    ghost var hF: Heap;
    ghost var hi: nat;
    content, F, fr, hF, hi := EncodeEntries(v);
    top := new Node(MappingNode, "", "!!map", content, null);
    assert Snap(F) == hF;
    AddTop(hF, fr, top, CellOf(top), hi, v);
    assert Snap(F + {top}) == hF[top := CellOf(top)];
    F, fr := F + {top}, fr[top := hi + 1];
  }

  /** A key node and the value's encoding per entry, in order, and the region they make up together. */
  method EncodeEntries(v: Value) returns (content: seq<Node>, ghost F: set<Node>, ghost fr: map<Node, nat>, ghost hF: Heap, ghost hi: nat)
    requires v.Map?
    ensures fresh(F) && hF == Snap(F)
    ensures Encoded(hF, fr, hi) && EntriesMirrored(hF, content, v.entries, |v.entries|)
    ensures forall k | 0 <= k < |content| :: content[k] in hF
    decreases v, 2
  {
    content := [];
    hi := 0;
    hF := map[];
    F, fr := {}, map[];
    for j := 0 to |v.entries|
      invariant fresh(F) && hF == Snap(F)
      invariant Encoded(hF, fr, hi) && EntriesMirrored(hF, content, v.entries, j)
      invariant forall k | 0 <= k < |content| :: content[k] in hF
    {
      content, F, fr, hF, hi := EncodeNextEntry(v, j, content, F, fr, hF, hi);
    }
  }

  /** One pass of the entries loop: entry j's key and value nodes join the region. */
  method EncodeNextEntry(v: Value, j: nat, content: seq<Node>, ghost F: set<Node>, ghost fr: map<Node, nat>, ghost hF: Heap, ghost hi: nat)
    returns (content2: seq<Node>, ghost F2: set<Node>, ghost fr2: map<Node, nat>, ghost hF2: Heap, ghost hi2: nat)
    requires v.Map? && j < |v.entries| && hF == Snap(F)
    requires Encoded(hF, fr, hi) && EntriesMirrored(hF, content, v.entries, j)
    requires forall k | 0 <= k < |content| :: content[k] in hF
    ensures F <= F2 && fresh(F2 - F) && hF2 == Snap(F2)
    ensures Encoded(hF2, fr2, hi2) && EntriesMirrored(hF2, content2, v.entries, j + 1)
    ensures forall k | 0 <= k < |content2| :: content2[k] in hF2
    decreases v, 1
  {
    var key, c, Fe, fre := EncodeEntry(v, j);
    assert Snap(F) == hF;
    fr2, hi2 := ExtendEntries(F, fr, hi, Fe, fre, key, c, content, v.entries, j);
    content2 := content + [key, c];
    F2 := F + Fe;
    hF2 := Snap(F2);
  }

  /** The key node and the value's encoding of entry j, as one fresh region. */
  method EncodeEntry(v: Value, j: nat) returns (key: Node, c: Node, ghost Fe: set<Node>, ghost fre: map<Node, nat>)
    requires v.Map? && j < |v.entries|
    ensures fresh(Fe) && key in Fe && c in Fe && fre.Keys == Fe
    ensures Wf(Snap(Fe), fre) && forall m | m in fre :: fre[m] <= fre[c]
    ensures IsScalar(Snap(Fe)[key], v.entries[j].key, "!!str")
    ensures Mirrors(Snap(Fe), c, v.entries[j].value)
    decreases v, 0
  {
    key := new Node(ScalarNode, v.entries[j].key, "!!str", [], null);
    ghost var Fc, frc;
    c, Fc, frc := Encode(v.entries[j].value);
    ghost var hc := Snap(Fc);
    assert key !in Fc;
    AddKey(hc, frc, key, CellOf(key), c, v.entries[j].value);
    Fe, fre := Fc + {key}, frc[key := 0];
    assert Snap(Fe) == hc[key := CellOf(key)];
  }

  /** A well-formed region whose keys are exactly the ranked nodes, all ranked at most hi. */
  ghost predicate Encoded(h: Heap, fr: map<Node, nat>, hi: nat)
  {
    Wf(h, fr) && fr.Keys == h.Keys && forall m | m in fr :: fr[m] <= hi
  }

  /** Each node of content mirrors the item at its position. */
  ghost predicate ItemsMirrored(h: Heap, content: seq<Node>, vs: seq<Value>)
  {
    |content| <= |vs| && forall k | 0 <= k < |content| :: Mirrors(h, content[k], vs[k])
  }

  /** content holds a key node and a value node for each of the first n entries, pair by pair. */
  ghost predicate EntriesMirrored(h: Heap, content: seq<Node>, es: seq<Entry>, n: nat)
  {
    |content| == 2 * n && n <= |es| &&
    forall k | 0 <= k < n ::
      content[2 * k] in h && IsScalar(h[content[2 * k]], es[k].key, "!!str") &&
      Mirrors(h, content[2 * k + 1], es[k].value)
  }

  /** The next item's encoding joins the items encoded so far. */
  lemma ExtendItems(F: set<Node>, fr: map<Node, nat>, hi: nat, Fc: set<Node>, frc: map<Node, nat>, c: Node,
                    content: seq<Node>, vs: seq<Value>)
    returns (fr2: map<Node, nat>, hi2: nat)
    requires Encoded(Snap(F), fr, hi) && ItemsMirrored(Snap(F), content, vs) && |content| < |vs|
    requires forall k | 0 <= k < |content| :: content[k] in F
    requires Wf(Snap(Fc), frc) && frc.Keys == Fc && F !! Fc && c in Fc
    requires forall m | m in frc :: frc[m] <= frc[c]
    requires Mirrors(Snap(Fc), c, vs[|content|])
    ensures Encoded(Snap(F + Fc), fr2, hi2) && ItemsMirrored(Snap(F + Fc), content + [c], vs)
    ensures forall k | 0 <= k < |content| + 1 :: (content + [c])[k] in F + Fc
  {
    var h0, hc := Snap(F), Snap(Fc);
    SnapUnion(F, Fc);
    fr2, hi2 := EncodedUnion(h0, fr, hi, hc, frc, c);
    ItemsUnion(h0, hc, c, content, vs);
  }

  /** Two disjoint encoded regions make one, ranked up to the higher of their bounds. */
  lemma EncodedUnion(h0: Heap, fr: map<Node, nat>, hi: nat, hc: Heap, frc: map<Node, nat>, c: Node)
    returns (fr2: map<Node, nat>, hi2: nat)
    requires Encoded(h0, fr, hi) && Wf(hc, frc) && frc.Keys == hc.Keys && h0.Keys !! hc.Keys && c in hc
    requires forall m | m in frc :: frc[m] <= frc[c]
    ensures fr2 == fr + frc && hi2 >= frc[c] && Encoded(h0 + hc, fr2, hi2)
  {
    WfUnion(h0, fr, hc, frc);
    fr2, hi2 := fr + frc, if frc[c] > hi then frc[c] else hi;
  }

  /** The items mirrored so far keep mirroring once the next item's region joins. */
  lemma ItemsUnion(h0: Heap, hc: Heap, c: Node, content: seq<Node>, vs: seq<Value>)
    requires ItemsMirrored(h0, content, vs) && |content| < |vs| && h0.Keys !! hc.Keys
    requires Mirrors(hc, c, vs[|content|])
    ensures ItemsMirrored(h0 + hc, content + [c], vs)
  {
    var h2 := h0 + hc;
    forall k | 0 <= k < |content| + 1
      ensures Mirrors(h2, (content + [c])[k], vs[k])
    {
      if k < |content| {
        MirrorsMono(h0, h2, h0[content[k]], vs[k]);
      } else {
        MirrorsMono(hc, h2, hc[c], vs[k]);
      }
    }
  }

  /** The next entry's key and value nodes join the entries encoded so far. */
  lemma ExtendEntries(F: set<Node>, fr: map<Node, nat>, hi: nat, Fe: set<Node>, fre: map<Node, nat>, key: Node, c: Node,
                      content: seq<Node>, es: seq<Entry>, n: nat)
    returns (fr2: map<Node, nat>, hi2: nat)
    requires Encoded(Snap(F), fr, hi) && EntriesMirrored(Snap(F), content, es, n) && n < |es|
    requires forall k | 0 <= k < |content| :: content[k] in F
    requires Wf(Snap(Fe), fre) && fre.Keys == Fe && F !! Fe && key in Fe && c in Fe
    requires forall m | m in fre :: fre[m] <= fre[c]
    requires IsScalar(Snap(Fe)[key], es[n].key, "!!str")
    requires Mirrors(Snap(Fe), c, es[n].value)
    ensures Encoded(Snap(F + Fe), fr2, hi2) && EntriesMirrored(Snap(F + Fe), content + [key, c], es, n + 1)
    ensures forall k | 0 <= k < |content| + 2 :: (content + [key, c])[k] in F + Fe
  {
    var h0, he := Snap(F), Snap(Fe);
    SnapUnion(F, Fe);
    fr2, hi2 := EncodedUnion(h0, fr, hi, he, fre, c);
    EntriesUnion(h0, he, key, c, content, es, n);
  }

  /** The entries mirrored so far keep mirroring once the next entry's region joins. */
  lemma EntriesUnion(h0: Heap, he: Heap, key: Node, c: Node, content: seq<Node>, es: seq<Entry>, n: nat)
    requires EntriesMirrored(h0, content, es, n) && n < |es| && h0.Keys !! he.Keys && key in he
    requires IsScalar(he[key], es[n].key, "!!str") && Mirrors(he, c, es[n].value)
    ensures EntriesMirrored(h0 + he, content + [key, c], es, n + 1)
  {
    var h2 := h0 + he;
    EntriesMono(h0, h2, content, es, n);
    MirrorsMono(he, h2, he[c], es[n].value);
    EntriesSnoc(h2, content, es, n, key, c);
  }

  lemma EntriesMono(h0: Heap, h2: Heap, content: seq<Node>, es: seq<Entry>, n: nat)
    requires Extends(h2, h0) && EntriesMirrored(h0, content, es, n)
    ensures EntriesMirrored(h2, content, es, n)
  {
    forall k | 0 <= k < n
      ensures Mirrors(h2, content[2 * k + 1], es[k].value)
    {
      assert Mirrors(h0, content[2 * k + 1], es[k].value);
      MirrorsMono(h0, h2, h0[content[2 * k + 1]], es[k].value);
    }
  }

  lemma EntriesSnoc(h: Heap, content: seq<Node>, es: seq<Entry>, n: nat, key: Node, c: Node)
    requires EntriesMirrored(h, content, es, n) && n < |es|
    requires key in h && IsScalar(h[key], es[n].key, "!!str") && Mirrors(h, c, es[n].value)
    ensures EntriesMirrored(h, content + [key, c], es, n + 1)
  {
    var cs := content + [key, c];
    forall k | 0 <= k < n + 1
      ensures cs[2 * k] in h && IsScalar(h[cs[2 * k]], es[k].key, "!!str")
      ensures Mirrors(h, cs[2 * k + 1], es[k].value)
    {
      if k < n {
        assert cs[2 * k] == content[2 * k] && cs[2 * k + 1] == content[2 * k + 1];
      }
    }
  }

  /** A key node, which has no children, joins its value's encoding at rank 0. */
  lemma AddKey(hc: Heap, frc: map<Node, nat>, key: Node, cell: Cell, c: Node, value: Value)
    requires Wf(hc, frc) && frc.Keys == hc.Keys && key !in hc && c in hc
    requires forall m | m in frc :: frc[m] <= frc[c]
    requires cell.content == [] && cell.alias == null && cell.kind == ScalarNode
    requires Mirrors(hc, c, value)
    ensures Wf(hc[key := cell], frc[key := 0])
    ensures Mirrors(hc[key := cell], c, value)
  {
    var h1 := hc[key := cell];
    var r1 := frc[key := 0];
    forall n | n in h1
      ensures n in r1 && WfCell(h1, r1, n, h1[n])
    {
      if n != key {
        assert WfCell(hc, frc, n, hc[n]);
      }
    }
    MirrorsMono(hc, h1, hc[c], value);
  }

  /** The finished mapping or sequence node on top of its children. */
  lemma AddTop(h0: Heap, fr: map<Node, nat>, top: Node, cell: Cell, hi: nat, v: Value)
    requires Encoded(h0, fr, hi) && top !in h0
    requires cell.alias == null && cell.kind != AliasNode && (cell.kind == MappingNode ==> |cell.content| % 2 == 0)
    requires forall k | 0 <= k < |cell.content| :: cell.content[k] in h0
    requires MirrorsCell(h0, cell, v)
    ensures Wf(h0[top := cell], fr[top := hi + 1])
    ensures Mirrors(h0[top := cell], top, v)
  {
    WfAddTop(h0, fr, top, cell, hi);
    MirrorsMono(h0, h0[top := cell], cell, v);
  }
}
