/**
 * The rule engine: one rule applied to a document tree in place. Every
 * action compiles the rule's path and looks its nodes up with the
 * navigator; replace and set overwrite what they find, regex_replace
 * rewrites the text of the scalars it finds, and delete detaches the
 * nodes it finds (filtered by the rule's where-clause) from their
 * parents.
 *
 * Each action is specified by a pure function of the snapshot taken
 * before the call: the outcome, and the heap after it.
 */
module Engine {
  import opened Wrappers
  import opened Strconv
  import opened YamlTree
  import opened PathTypes
  import opened PathParser
  import opened Navigator
  import opened EngineTypes
  import opened Encoding
  import opened Deletion
  import Regex

  /** The errors `Apply` returns, one per `fmt.Errorf` of the engine. */
  datatype EngineError =
    | ParsePath(parseError: ParseError)
    | FindNodes(navError: NavError)
    | NoNodesFound
    | PatternRequired
    | CompileRegex(pattern: string)
    | ReplacementNotString
    | UnknownAction(action: string)

  // ---------------------------------------------------------------------
  // Looking up the nodes a rule addresses

  /** The nodes replace, set and regex_replace act on: the path compiled and resolved, none found being an error. */
  ghost function Targets(h: Heap, rank: map<Node, nat>, root: Node, path: string, re2: Regex.Dialect): (r: Result<seq<Node>, EngineError>)
    requires Wf(h, rank) && root in h
    ensures r.Ok? ==> |r.value| > 0 && forall k | 0 <= k < |r.value| :: r.value[k] in h
  {
    match Compile(path, re2)
    case Err(e) => Err(ParsePath(e))
    case Ok(p) =>
      match ResolvePath(h, rank, root, p)
      case Err(e) => Err(FindNodes(e))
      case Ok(ns) => if |ns| == 0 then Err(NoNodesFound) else Ok(ns)
  }

  /** The nodes delete acts on: the path resolved and filtered by the where-clause; none found is not an error. */
  ghost function DeleteTargets(h: Heap, rank: map<Node, nat>, root: Node, rule: Rule, re2: Regex.Dialect, std: Regex.Dialect): (r: Result<seq<Node>, EngineError>)
    requires Wf(h, rank) && root in h
  {
    match Compile(rule.path, re2)
    case Err(e) => Err(ParsePath(e))
    case Ok(p) =>
      match ResolveWhere(h, rank, root, p, rule.where, std)
      case Err(e) => Err(FindNodes(e))
      case Ok(ns) => Ok(ns)
  }

  /** Parse, find and the no-nodes check shared by replace, set and regex_replace. */
  method FindTargets(ghost g: Region, root: Node, path: string, re2: Regex.Dialect) returns (r: Result<seq<Node>, EngineError>)
    requires Valid(g) && root in g.nodes
    ensures r == Targets(Snap(g.nodes), g.rank, root, path, re2)
  {
    var p := Parse(path, re2);
    if p.Err? {
      return Err(ParsePath(p.error));
    }
    var nodes := Find(g, root, p.value);
    if nodes.Err? {
      return Err(FindNodes(nodes.error));
    }
    if |nodes.value| == 0 {
      return Err(NoNodesFound);
    }
    return Ok(nodes.value);
  }

  // ---------------------------------------------------------------------
  // Heap facts shared by the writing actions

  /** The nodes of h2 that h does not hold, with their fields. */
  ghost function Fresh(h: Heap, h2: Heap): (r: Heap)
    ensures forall n | n in r :: n in h2 && n !in h && r[n] == h2[n]
  {
    map n | n in h2 && n !in h :: h2[n]
  }

  ghost function Elems(s: seq<Node>): set<Node>
  {
    set n | n in s
  }

  /** A node whose fields are replaced by a cell that keeps its children and alias target in place. */
  lemma WfUpdate(h: Heap, rank: map<Node, nat>, n: Node, c: Cell)
    requires Wf(h, rank) && n in h && WfCell(h, rank, n, c)
    ensures Wf(h[n := c], rank)
  {
    var h2 := h[n := c];
    forall m | m in h2
      ensures m in rank && WfCell(h2, rank, m, h2[m])
    {
      if m != n {
        assert WfCell(h, rank, m, h[m]);
      }
    }
  }

  /** An encoded cell has no alias and whole mapping pairs. */
  lemma MirrorsShape(h: Heap, c: Cell, v: Value)
    requires MirrorsCell(h, c, v)
    ensures c.alias == null && c.kind != AliasNode && (c.kind == MappingNode ==> |c.content| % 2 == 0)
  {
  }

  // ---------------------------------------------------------------------
  // replace

  /**
   * After replace: nothing but the targets changed, and every target
   * holds one and the same cell, which mirrors the value through nodes
   * that did not exist before.
   */
  ghost predicate Replaced(h: Heap, h2: Heap, ts: seq<Node>, v: Value)
  {
    h.Keys <= h2.Keys &&
    (forall n | n in h && n !in ts :: h2[n] == h[n]) &&
    (forall t | t in ts :: t in h2 && MirrorsCell(Fresh(h, h2), h2[t], v)) &&
    (forall i, j | 0 <= i < |ts| && 0 <= j < |ts| :: ts[i] in h2 && ts[j] in h2 && h2[ts[i]] == h2[ts[j]])
  }

  /** `*node = *newNode`: every field of from copied into n. */
  method CopyNode(ghost nodes: set<Node>, ghost keep: set<Node>, ghost h: Heap, n: Node, from: Node)
    requires n in nodes && from !in nodes && Snap(nodes) == h && n !in keep
    modifies n
    ensures Snap(nodes) == h[n := CellOf(from)]
    ensures CellOf(from) == old(CellOf(from))
    ensures Snap(keep) == old(Snap(keep))
  {
    ghost var c := CellOf(from);
    n.kind, n.value, n.tag, n.content, n.alias := from.kind, from.value, from.tag, from.content, from.alias;
    assert CellOf(n) == c && CellOf(from) == c;
    assert forall m | m in nodes && m != n :: CellOf(m) == h[m];
  }

  /** Overwriting one more target. */
  lemma OverwriteOne(h: Heap, S: set<Node>, n: Node, c: Cell)
    requires n in h
    ensures Overwritten(h, S, c)[n := c] == Overwritten(h, S + {n}, c)
  {
  }

  /** The loop of replace: the same node copied into every target. */
  method CopyAll(ghost nodes: set<Node>, ghost keep: set<Node>, targets: seq<Node>, from: Node)
    requires from !in nodes && nodes !! keep && forall k | 0 <= k < |targets| :: targets[k] in nodes
    modifies set t | t in targets
    ensures Snap(nodes) == Overwritten(old(Snap(nodes)), Elems(targets), CellOf(from))
    ensures CellOf(from) == old(CellOf(from))
    ensures Snap(keep) == old(Snap(keep))
  {
    ghost var h0 := Snap(nodes);
    ghost var hk := Snap(keep);
    ghost var cell := CellOf(from);
    for k := 0 to |targets|
      invariant Snap(nodes) == Overwritten(h0, Elems(targets[..k]), cell)
      invariant CellOf(from) == cell
      invariant Snap(keep) == hk
    {
      assert Elems(targets[..k + 1]) == Elems(targets[..k]) + {targets[k]} by {
        assert targets[..k + 1] == targets[..k] + [targets[k]];
      }
      CopyNode(nodes, keep, Snap(nodes), targets[k], from);
      OverwriteOne(h0, Elems(targets[..k]), targets[k], cell);
    }
    assert targets[..|targets|] == targets;
  }

  /** The heap after the copies: well formed under the lifted ranks, and a replacement of the targets. */
  lemma GraftReplaced(h0: Heap, rank: map<Node, nat>, hF: Heap, fr: map<Node, nat>, top: Node, targets: seq<Node>, v: Value, lift: nat)
    requires Wf(h0, rank) && Wf(hF, fr) && fr.Keys == hF.Keys && h0.Keys !! hF.Keys && top in hF
    requires forall m | m in fr :: fr[m] < lift
    requires Mirrors(hF, top, v) && forall k | 0 <= k < |targets| :: targets[k] in h0
    ensures Wf(Overwritten(h0, Elems(targets), hF[top]) + hF, Lifted(h0.Keys, rank, fr, lift))
    ensures Replaced(h0, Overwritten(h0, Elems(targets), hF[top]) + hF, targets, v)
  {
    MirrorsShape(hF, hF[top], v);
    GraftWf(h0, rank, hF, fr, Elems(targets), top, lift);
    OverwrittenReplaced(h0, hF, hF[top], targets, v);
  }

  lemma OverwrittenReplaced(h0: Heap, hF: Heap, cell: Cell, targets: seq<Node>, v: Value)
    requires h0.Keys !! hF.Keys && MirrorsCell(hF, cell, v)
    requires forall k | 0 <= k < |targets| :: targets[k] in h0
    ensures Replaced(h0, Overwritten(h0, Elems(targets), cell) + hF, targets, v)
  {
    var h2 := Overwritten(h0, Elems(targets), cell) + hF;
    assert Fresh(h0, h2) == hF;
    forall t | t in targets
      ensures t in h2 && h2[t] == cell
    {
      assert t in Elems(targets);
    }
    forall n | n in h0 && n !in targets
      ensures h2[n] == h0[n]
    {
      assert n !in Elems(targets);
    }
  }

  /**
   * Encode the value once and copy the encoded node into every target:
   * the targets share the encoded node's children. The encoded nodes join
   * the region, ranked below every existing node.
   */
  method CopyInto(ghost g: Region, targets: seq<Node>, v: Value) returns (ghost g2: Region)
    requires Valid(g) && forall k | 0 <= k < |targets| :: targets[k] in g.nodes
    modifies set t | t in targets
    ensures g.nodes <= g2.nodes && fresh(g2.nodes - g.nodes)
    ensures Valid(g2)
    ensures Replaced(old(Snap(g.nodes)), Snap(g2.nodes), targets, v)
  {
    ghost var h0 := Snap(g.nodes);
    var top: Node;
    ghost var F: set<Node>, fr: map<Node, nat>;
    top, F, fr := Encode(v);
    ghost var hF := Snap(F);
    assert F !! g.nodes;
    assert Snap(g.nodes) == h0;
    assert hF[top] == CellOf(top);
    CopyAll(g.nodes, F, targets, top);
    SnapUnion(g.nodes, F);
    ghost var lift := fr[top] + 1;
    g2 := Region(g.nodes + F, Lifted(g.nodes, g.rank, fr, lift));
    GraftReplaced(h0, g.rank, hF, fr, top, targets, v, lift);
  }

  /** `replace`: encode the value once and overwrite every node the path finds. */
  method Replace(ghost g: Region, root: Node, rule: Rule, re2: Regex.Dialect) returns (r: Outcome<EngineError>, ghost g2: Region)
    requires Valid(g) && root in g.nodes
    modifies g.nodes
    ensures g.nodes <= g2.nodes && fresh(g2.nodes - g.nodes) && Valid(g2)
    ensures match Targets(old(Snap(g.nodes)), g.rank, root, rule.path, re2)
      case Err(e) => r == Fail(e) && g2 == g && Snap(g.nodes) == old(Snap(g.nodes))
      case Ok(ts) => r == Pass && Replaced(old(Snap(g.nodes)), Snap(g2.nodes), ts, rule.value)
  {
    var found := FindTargets(g, root, rule.path, re2);
    if found.Err? {
      return Fail(found.error), g;
    }
    g2 := CopyInto(g, found.value, rule.value);
    r := Pass;
  }

  // ---------------------------------------------------------------------
  // set

  /** The text and tag set writes in place for a string, an int or a bool; other values are encoded. */
  function SetScalar(v: Value): (r: Option<(string, string)>)
    ensures r.Some? <==> v.Str? || v.Int? || v.Bool?
  {
    match v
    case Str(s) => Some((s, "!!str"))
    case Int(i) => Some((Itoa(i), "!!int"))
    case Bool(b) => Some((BoolText(b), "!!bool"))
    case _ => None
  }

  /**
   * What set leaves in target t: a scalar of the value's text and tag
   * that keeps its other fields, or a cell mirroring the value through
   * new nodes.
   */
  ghost predicate SetCell(h: Heap, h2: Heap, t: Node, v: Value)
    requires t in h && t in h2
  {
    match SetScalar(v)
    case Some(p) => h2[t] == h[t].(kind := ScalarNode, value := p.0, tag := p.1)
    case None => MirrorsCell(Fresh(h, h2), h2[t], v)
  }

  /** After set: nothing but the targets changed, and each target holds what SetCell says. */
  ghost predicate SetDone(h: Heap, h2: Heap, ts: seq<Node>, v: Value)
  {
    h.Keys <= h2.Keys &&
    (forall n | n in h && n !in ts :: h2[n] == h[n]) &&
    (forall t | t in ts :: t in h && t in h2 && SetCell(h, h2, t, v))
  }

  /** One more target set, on a heap that grew from h0. */
  lemma SetStep(h0: Heap, hk: Heap, hk1: Heap, A: seq<Node>, t: Node, v: Value)
    requires SetDone(h0, hk, A, v) && SetDone(hk, hk1, [t], v) && t in h0
    ensures SetDone(h0, hk1, A + [t], v)
  {
    assert Extends(Fresh(h0, hk1), Fresh(h0, hk));
    assert Extends(Fresh(h0, hk1), Fresh(hk, hk1));
    forall u | u in A + [t]
      ensures u in h0 && u in hk1 && SetCell(h0, hk1, u, v)
    {
      if u == t {
        if SetScalar(v).None? {
          MirrorsMono(Fresh(hk, hk1), Fresh(h0, hk1), hk1[t], v);
        }
      } else {
        assert u in A;
        if SetScalar(v).None? {
          MirrorsMono(Fresh(h0, hk), Fresh(h0, hk1), hk[u], v);
        }
      }
    }
  }

  /** The scalar cases of set: value, kind and tag written in place. */
  method WriteScalar(ghost g: Region, node: Node, text: string, tag: string)
    requires Valid(g) && node in g.nodes
    modifies node
    ensures Valid(g)
    ensures Snap(g.nodes) == old(Snap(g.nodes))[node := old(CellOf(node)).(kind := ScalarNode, value := text, tag := tag)]
  {
    ghost var h0 := Snap(g.nodes);
    ghost var c := h0[node].(kind := ScalarNode, value := text, tag := tag);
    assert WfCell(h0, g.rank, node, h0[node]);
    WfUpdate(h0, g.rank, node, c);
    node.value, node.kind, node.tag := text, ScalarNode, tag;
    assert CellOf(node) == c;
    assert forall m | m in g.nodes && m != node :: CellOf(m) == h0[m];
    assert Snap(g.nodes) == h0[node := c];
  }

  /** The body of set's loop for one node. */
  method SetNode(ghost g: Region, node: Node, v: Value) returns (ghost g2: Region)
    requires Valid(g) && node in g.nodes
    modifies node
    ensures g.nodes <= g2.nodes && fresh(g2.nodes - g.nodes) && Valid(g2)
    ensures SetDone(old(Snap(g.nodes)), Snap(g2.nodes), [node], v)
  {
    ghost var h0 := Snap(g.nodes);
    match v
    case Str(s) =>
      WriteScalar(g, node, s, "!!str");
      g2 := g;
      ScalarSetDone(h0, node, v);
    case Int(i) =>
      WriteScalar(g, node, Itoa(i), "!!int");
      g2 := g;
      ScalarSetDone(h0, node, v);
    case Bool(b) =>
      WriteScalar(g, node, BoolText(b), "!!bool");
      g2 := g;
      ScalarSetDone(h0, node, v);
    case _ =>
      g2 := CopyInto(g, [node], v);
      ReplacedSetDone(h0, Snap(g2.nodes), node, v);
  }

  /** A scalar written in place is a set of that one node. */
  lemma ScalarSetDone(h: Heap, t: Node, v: Value)
    requires t in h && SetScalar(v).Some?
    ensures var p := SetScalar(v).value;
      SetDone(h, h[t := h[t].(kind := ScalarNode, value := p.0, tag := p.1)], [t], v)
  {
  }

  /** An encoded copy is a set of that one node. */
  lemma ReplacedSetDone(h: Heap, h2: Heap, t: Node, v: Value)
    requires t in h && SetScalar(v).None? && Replaced(h, h2, [t], v)
    ensures SetDone(h, h2, [t], v)
  {
  }

  /** The loop of set over the nodes found. */
  method SetAll(ghost g: Region, targets: seq<Node>, v: Value) returns (ghost g2: Region)
    requires Valid(g) && forall k | 0 <= k < |targets| :: targets[k] in g.nodes
    modifies g.nodes
    ensures g.nodes <= g2.nodes && fresh(g2.nodes - g.nodes) && Valid(g2)
    ensures SetDone(old(Snap(g.nodes)), Snap(g2.nodes), targets, v)
  {
    ghost var h0 := Snap(g.nodes);
    g2 := g;
    for k := 0 to |targets|
      invariant g.nodes <= g2.nodes && fresh(g2.nodes - g.nodes) && Valid(g2)
      invariant SetDone(h0, Snap(g2.nodes), targets[..k], v)
    {
      g2 := SetNext(h0, g2, targets, k, v);
    }
    assert targets[..|targets|] == targets;
  }

  /** One round of `SetAll`: the k-th node found is set. */
  method SetNext(ghost h0: Heap, ghost g: Region, targets: seq<Node>, k: nat, v: Value) returns (ghost g2: Region)
    requires k < |targets| && targets[k] in g.nodes && targets[k] in h0
    requires Valid(g) && SetDone(h0, Snap(g.nodes), targets[..k], v)
    modifies targets[k]
    ensures g.nodes <= g2.nodes && fresh(g2.nodes - g.nodes) && Valid(g2)
    ensures SetDone(h0, Snap(g2.nodes), targets[..k + 1], v)
  {
    PrefixSnoc(targets, k);
    ghost var hk := Snap(g.nodes);
    g2 := SetNode(g, targets[k], v);
    SetStep(h0, hk, Snap(g2.nodes), targets[..k], targets[k], v);
  }

  /** `set`: every node the path finds given the value. */
  method Set(ghost g: Region, root: Node, rule: Rule, re2: Regex.Dialect) returns (r: Outcome<EngineError>, ghost g2: Region)
    requires Valid(g) && root in g.nodes
    modifies g.nodes
    ensures g.nodes <= g2.nodes && fresh(g2.nodes - g.nodes) && Valid(g2)
    ensures match Targets(old(Snap(g.nodes)), g.rank, root, rule.path, re2)
      case Err(e) => r == Fail(e) && g2 == g && Snap(g.nodes) == old(Snap(g.nodes))
      case Ok(ts) => r == Pass && SetDone(old(Snap(g.nodes)), Snap(g2.nodes), ts, rule.value)
  {
    var found := FindTargets(g, root, rule.path, re2);
    if found.Err? {
      return Fail(found.error), g;
    }
    g2 := SetAll(g, found.value, rule.value);
    r := Pass;
  }

  // ---------------------------------------------------------------------
  // regex_replace

  /** The checks regex_replace makes once it has found nodes: a pattern, one that compiles, a string replacement. */
  function RegexCheck(rule: Rule, std: Regex.Dialect): (r: Option<EngineError>)
    ensures r.None? <==> rule.pattern != "" && std.valid(rule.pattern) && rule.value.Str?
    ensures rule.pattern == "" ==> r == Some(PatternRequired)
    ensures rule.pattern != "" && !std.valid(rule.pattern) ==> r == Some(CompileRegex(rule.pattern))
    ensures rule.pattern != "" && std.valid(rule.pattern) && !rule.value.Str? ==> r == Some(ReplacementNotString)
  {
    if rule.pattern == "" then Some(PatternRequired)
    else if !std.valid(rule.pattern) then Some(CompileRegex(rule.pattern))
    else if !rule.value.Str? then Some(ReplacementNotString)
    else None
  }

  /** The targets rewritten one after the other: each scalar's text has every match replaced. */
  ghost function RegexFold(h: Heap, ts: seq<Node>, std: Regex.Dialect, pattern: string, repl: string): (r: Heap)
    requires forall k | 0 <= k < |ts| :: ts[k] in h
    ensures r.Keys == h.Keys
  {
    if |ts| == 0 then h
    else
      var h1 := RegexFold(h, ts[..|ts| - 1], std, pattern, repl);
      var t := ts[|ts| - 1];
      if h1[t].kind == ScalarNode then h1[t := h1[t].(value := std.replaceAll(pattern, h1[t].value, repl))]
      else h1
  }

  /**
   * regex_replace changes only the text of scalar targets; when no node
   * is found twice, each scalar target's text is replaced exactly once.
   */
  lemma RegexFoldEffect(h: Heap, ts: seq<Node>, std: Regex.Dialect, pattern: string, repl: string)
    requires forall k | 0 <= k < |ts| :: ts[k] in h
    ensures var r := RegexFold(h, ts, std, pattern, repl);
      forall n | n in h ::
        r[n] == h[n].(value := r[n].value) &&
        (n !in ts || h[n].kind != ScalarNode ==> r[n] == h[n])
    ensures var r := RegexFold(h, ts, std, pattern, repl);
      (forall i, j | 0 <= i < j < |ts| :: ts[i] != ts[j]) ==>
        forall n | n in ts && h[n].kind == ScalarNode :: r[n].value == std.replaceAll(pattern, h[n].value, repl)
  {
    RegexFoldFrame(h, ts, std, pattern, repl);
    if forall i, j | 0 <= i < j < |ts| :: ts[i] != ts[j] {
      RegexFoldOnce(h, ts, std, pattern, repl);
    }
  }

  /** Only the text of scalar targets changes. */
  lemma {:induction false} RegexFoldFrame(h: Heap, ts: seq<Node>, std: Regex.Dialect, pattern: string, repl: string)
    requires forall k | 0 <= k < |ts| :: ts[k] in h
    ensures var r := RegexFold(h, ts, std, pattern, repl);
      forall n | n in h ::
        r[n] == h[n].(value := r[n].value) &&
        (n !in ts || h[n].kind != ScalarNode ==> r[n] == h[n])
  {
    if |ts| > 0 {
      var front := ts[..|ts| - 1];
      RegexFoldFrame(h, front, std, pattern, repl);
      assert forall n | n in ts :: n in front || n == ts[|ts| - 1];
    }
  }

  /** With no target found twice, each scalar target's text is replaced exactly once. */
  lemma {:induction false} RegexFoldOnce(h: Heap, ts: seq<Node>, std: Regex.Dialect, pattern: string, repl: string)
    requires forall k | 0 <= k < |ts| :: ts[k] in h
    requires forall i, j | 0 <= i < j < |ts| :: ts[i] != ts[j]
    ensures var r := RegexFold(h, ts, std, pattern, repl);
      forall n | n in ts && h[n].kind == ScalarNode :: r[n].value == std.replaceAll(pattern, h[n].value, repl)
  {
    if |ts| > 0 {
      var front, t := ts[..|ts| - 1], ts[|ts| - 1];
      assert forall i, j | 0 <= i < j < |front| :: front[i] != front[j];
      RegexFoldOnce(h, front, std, pattern, repl);
      RegexFoldFrame(h, front, std, pattern, repl);
      assert t !in front by {
        forall i | 0 <= i < |front| ensures front[i] != t {
          assert ts[i] == front[i];
        }
      }
      assert forall n | n in ts :: n in front || n == t;
    }
  }

  /** Rewriting the text of a scalar keeps the tree well formed. */
  method WriteValue(ghost g: Region, node: Node, text: string)
    requires Valid(g) && node in g.nodes
    modifies node
    ensures Valid(g)
    ensures Snap(g.nodes) == old(Snap(g.nodes))[node := old(CellOf(node)).(value := text)]
  {
    ghost var h0 := Snap(g.nodes);
    ghost var c := h0[node].(value := text);
    assert WfCell(h0, g.rank, node, h0[node]);
    WfUpdate(h0, g.rank, node, c);
    node.value := text;
    assert Snap(g.nodes) == h0[node := c];
  }

  /** The loop of regex_replace: non-scalar nodes are skipped. */
  method RegexReplaceAll(ghost g: Region, targets: seq<Node>, std: Regex.Dialect, pattern: string, repl: string)
    requires Valid(g) && forall k | 0 <= k < |targets| :: targets[k] in g.nodes
    modifies g.nodes
    ensures Valid(g)
    ensures Snap(g.nodes) == RegexFold(old(Snap(g.nodes)), targets, std, pattern, repl)
  {
    ghost var h0 := Snap(g.nodes);
    for k := 0 to |targets|
      invariant Valid(g)
      invariant Snap(g.nodes) == RegexFold(h0, targets[..k], std, pattern, repl)
    {
      PrefixSnoc(targets, k);
      assert targets[..k + 1][..k] == targets[..k];
      var node := targets[k];
      if node.kind != ScalarNode {
        continue;
      }
      WriteValue(g, node, std.replaceAll(pattern, node.value, repl));
    }
    assert targets[..|targets|] == targets;
  }

  /** `regexReplace` */
  method RegexReplace(ghost g: Region, root: Node, rule: Rule, re2: Regex.Dialect, std: Regex.Dialect) returns (r: Outcome<EngineError>)
    requires Valid(g) && root in g.nodes
    modifies g.nodes
    ensures Valid(g)
    ensures match Targets(old(Snap(g.nodes)), g.rank, root, rule.path, re2)
      case Err(e) => r == Fail(e) && Snap(g.nodes) == old(Snap(g.nodes))
      case Ok(ts) =>
        match RegexCheck(rule, std)
        case Some(e) => r == Fail(e) && Snap(g.nodes) == old(Snap(g.nodes))
        case None => r == Pass && Snap(g.nodes) == RegexFold(old(Snap(g.nodes)), ts, std, rule.pattern, rule.value.s)
  {
    var found := FindTargets(g, root, rule.path, re2);
    if found.Err? {
      return Fail(found.error);
    }
    if rule.pattern == "" {
      return Fail(PatternRequired);
    }
    if !std.valid(rule.pattern) {
      return Fail(CompileRegex(rule.pattern));
    }
    if !rule.value.Str? {
      return Fail(ReplacementNotString);
    }
    RegexReplaceAll(g, found.value, std, rule.pattern, rule.value.s);
    r := Pass;
  }

  // ---------------------------------------------------------------------
  // delete

  /** `delete`: the nodes found, filtered by the where-clause, each detached in turn; finding none is not an error. */
  method Delete(ghost g: Region, root: Node, rule: Rule, re2: Regex.Dialect, std: Regex.Dialect) returns (r: Outcome<EngineError>)
    requires Valid(g) && root in g.nodes
    modifies g.nodes
    ensures Valid(g)
    ensures match DeleteTargets(old(Snap(g.nodes)), g.rank, root, rule, re2, std)
      case Err(e) => r == Fail(e) && Snap(g.nodes) == old(Snap(g.nodes))
      case Ok(ts) => r == Pass && Snap(g.nodes) == DeleteAll(old(Snap(g.nodes)), g.rank, root, ts)
  {
    var p := Parse(rule.path, re2);
    if p.Err? {
      return Fail(ParsePath(p.error));
    }
    var nodes := FindWithWhere(g, root, p.value, rule.where, std);
    if nodes.Err? {
      return Fail(FindNodes(nodes.error));
    }
    if |nodes.value| == 0 {
      return Pass;
    }
    DeleteNodes(g, root, nodes.value);
    r := Pass;
  }

  // ---------------------------------------------------------------------
  // Apply

  /** The outcome of applying rule to the tree h and the tree h2 it leaves, by action. */
  ghost predicate Applied(h: Heap, rank: map<Node, nat>, root: Node, rule: Rule, re2: Regex.Dialect, std: Regex.Dialect,
                          r: Outcome<EngineError>, h2: Heap)
    requires Wf(h, rank) && root in h
  {
    if rule.action == ActionReplace then
      match Targets(h, rank, root, rule.path, re2)
      case Err(e) => r == Fail(e) && h2 == h
      case Ok(ts) => r == Pass && Replaced(h, h2, ts, rule.value)
    else if rule.action == ActionSet then
      match Targets(h, rank, root, rule.path, re2)
      case Err(e) => r == Fail(e) && h2 == h
      case Ok(ts) => r == Pass && SetDone(h, h2, ts, rule.value)
    else if rule.action == ActionDelete then
      match DeleteTargets(h, rank, root, rule, re2, std)
      case Err(e) => r == Fail(e) && h2 == h
      case Ok(ts) => r == Pass && h2 == DeleteAll(h, rank, root, ts)
    else if rule.action == ActionRegexReplace then
      match Targets(h, rank, root, rule.path, re2)
      case Err(e) => r == Fail(e) && h2 == h
      case Ok(ts) =>
        match RegexCheck(rule, std)
        case Some(e) => r == Fail(e) && h2 == h
        case None => r == Pass && h2 == RegexFold(h, ts, std, rule.pattern, rule.value.s)
    else r == Fail(UnknownAction(rule.action)) && h2 == h
  }

  /** `Apply`: dispatch on the rule's action. A rule that fails leaves the tree as it was. */
  method Apply(ghost g: Region, root: Node, rule: Rule, re2: Regex.Dialect, std: Regex.Dialect) returns (r: Outcome<EngineError>, ghost g2: Region)
    requires Valid(g) && root in g.nodes
    modifies g.nodes
    ensures g.nodes <= g2.nodes && fresh(g2.nodes - g.nodes) && Valid(g2)
    ensures Applied(old(Snap(g.nodes)), g.rank, root, rule, re2, std, r, Snap(g2.nodes))
    ensures r.Fail? ==> g2 == g && Snap(g.nodes) == old(Snap(g.nodes))
  {
    if rule.action == ActionReplace {
      r, g2 := Replace(g, root, rule, re2);
    } else if rule.action == ActionSet {
      r, g2 := Set(g, root, rule, re2);
    } else if rule.action == ActionDelete {
      r := Delete(g, root, rule, re2, std);
      g2 := g;
    } else if rule.action == ActionRegexReplace {
      r := RegexReplace(g, root, rule, re2, std);
      g2 := g;
    } else {
      r, g2 := Fail(UnknownAction(rule.action)), g;
    }
  }

  // ---------------------------------------------------------------------
  // Reading the written values back

  /** Every node replace overwrote reads back as the rule's value. */
  lemma ReplaceReadsBack(h: Heap, h2: Heap, rank2: map<Node, nat>, ts: seq<Node>, v: Value)
    requires Replaced(h, h2, ts, v) && Wf(h2, rank2)
    ensures forall t | t in ts :: t in h2 && Decoded(h2, rank2, t) == Some(v)
  {
    assert Extends(h2, Fresh(h, h2));
    forall t | t in ts
      ensures t in h2 && Decoded(h2, rank2, t) == Some(v)
    {
      MirrorsMono(Fresh(h, h2), h2, h2[t], v);
      MirrorDecodes(h2, rank2, t, v);
    }
  }

  /** Every node set wrote reads back as the rule's value, whether written in place or encoded. */
  lemma SetReadsBack(h: Heap, h2: Heap, rank2: map<Node, nat>, ts: seq<Node>, v: Value)
    requires SetDone(h, h2, ts, v) && Wf(h2, rank2)
    ensures forall t | t in ts :: t in h2 && Decoded(h2, rank2, t) == Some(v)
  {
    assert Extends(h2, Fresh(h, h2));
    forall t | t in ts
      ensures t in h2 && Decoded(h2, rank2, t) == Some(v)
    {
      match v
      case Int(i) =>
        AtoiItoa(i);
      case Str(_) =>
      case Bool(_) =>
      case _ =>
        MirrorsMono(Fresh(h, h2), h2, h2[t], v);
        MirrorDecodes(h2, rank2, t, v);
    }
  }
}
