/**
 * The navigator resolves a compiled path against a node tree by recursive
 * descent over the segments. Specification functions over a heap snapshot
 * state what each lookup yields; the methods, which follow the source's
 * loops, are proved to compute exactly that.
 */
module Navigator {
  import opened Wrappers
  import opened PathTypes
  import opened YamlTree
  import Regex

  datatype NavError =
    | EmptyDocument
    | ExpectedMapping(kind: Kind)
    | FieldNotFound(field: string)
    | ExpectedMappingForArray
    | ArrayFieldNotFound(field: string)
    | NotAnArray(field: string)
    | IndexOutOfRange(index: int)
    | NoConditionMatch

  /** The delete-only post-filter on a candidate's `name` member. */
  datatype WhereCondition = WhereCondition(nameRegex: string, nameNotIn: seq<string>, nameIn: seq<string>)

  // ---------------------------------------------------------------------
  // Mapping lookup

  /**
   * Position, at or after i, of the first key of mapping n whose text is
   * name; keys sit at even positions of the content.
   */
  ghost function KeyIndexFrom(h: Heap, rank: map<Node, nat>, n: Node, name: string, i: nat): (r: Option<nat>)
    requires Wf(h, rank) && n in h && h[n].kind == MappingNode && i % 2 == 0
    ensures r.Some? ==> i <= r.value && r.value % 2 == 0 && r.value + 1 < |h[n].content|
    ensures r.Some? ==> h[h[n].content[r.value]].value == name
    ensures r.Some? ==> forall j | i <= j < r.value && j % 2 == 0 :: h[h[n].content[j]].value != name
    ensures r.None? ==> forall j | i <= j < |h[n].content| && j % 2 == 0 :: h[h[n].content[j]].value != name
    decreases |h[n].content| - i
  {
    if i >= |h[n].content| then None
    else if h[h[n].content[i]].value == name then Some(i)
    else KeyIndexFrom(h, rank, n, name, i + 2)
  }

  /** The value paired with the first key equal to name: the first key wins. */
  ghost function ValueOf(h: Heap, rank: map<Node, nat>, n: Node, name: string): (r: Option<Node>)
    requires Wf(h, rank) && n in h && h[n].kind == MappingNode
    ensures r.Some? ==> Below(h, rank, r.value, n)
    ensures r.Some? <==> exists j | 0 <= j < |h[n].content| && j % 2 == 0 :: h[h[n].content[j]].value == name
  {
    match KeyIndexFrom(h, rank, n, name, 0)
    case None => None
    case Some(k) => Some(h[n].content[k + 1])
  }

  // ---------------------------------------------------------------------
  // Resolution

  /**
   * `matchCondition`: the element must be a mapping, and the value of its
   * first key equal to the condition's field is compared as text. The
   * source's switch has no branch for the regex operator, so the scan
   * goes on past a matching key and a regex condition never matches.
   */
  ghost predicate MatchesCondition(h: Heap, rank: map<Node, nat>, n: Node, cond: Condition)
    requires Wf(h, rank) && n in h
  {
    h[n].kind == MappingNode &&
    match ValueOf(h, rank, n, cond.field)
    case None => false
    case Some(v) =>
      match cond.op
      case Equal => h[v].value == cond.value
      case NotEqual => h[v].value != cond.value
      case Regex => false
  }

  /** `findRecursive`: the nodes segs[i..] reaches from n. */
  ghost function Resolve(h: Heap, rank: map<Node, nat>, n: Node, segs: Path, i: nat): (r: Result<seq<Node>, NavError>)
    requires Wf(h, rank) && n in h
    ensures r.Ok? ==> forall x | x in r.value :: x in h
    decreases rank[n], 2, 0
  {
    if i >= |segs| then Ok([n])
    else if h[n].kind == DocumentNode then
      if |h[n].content| == 0 then Err(EmptyDocument) else Resolve(h, rank, h[n].content[0], segs, i)
    else if h[n].kind == AliasNode then Resolve(h, rank, h[n].alias, segs, i)
    else match segs[i]
      case Field(_) => ResolveField(h, rank, n, segs, i)
      case Array(_, _) => ResolveArray(h, rank, n, segs, i)
  }

  /** `findField`: follow the first key equal to the segment's field. */
  ghost function ResolveField(h: Heap, rank: map<Node, nat>, n: Node, segs: Path, i: nat): (r: Result<seq<Node>, NavError>)
    requires Wf(h, rank) && n in h && i < |segs|
    ensures r.Ok? ==> forall x | x in r.value :: x in h
    decreases rank[n], 1, 0
  {
    if h[n].kind != MappingNode then Err(ExpectedMapping(h[n].kind))
    else match ValueOf(h, rank, n, segs[i].field)
      case None => Err(FieldNotFound(segs[i].field))
      case Some(v) => Resolve(h, rank, v, segs, i + 1)
  }

  /**
   * `findArray`: the field must hold a sequence; then the selector picks
   * elements. A wildcard keeps whatever the elements resolve to and never
   * fails; an index must be in range; a condition keeps the matching
   * elements' results and fails when there are none.
   */
  ghost function ResolveArray(h: Heap, rank: map<Node, nat>, n: Node, segs: Path, i: nat): (r: Result<seq<Node>, NavError>)
    requires Wf(h, rank) && n in h && i < |segs| && segs[i].Array?
    ensures r.Ok? ==> forall x | x in r.value :: x in h
    ensures r.Ok? && segs[i].selector.Cond? ==> |r.value| > 0
    decreases rank[n], 1, 0
  {
    var field := segs[i].field;
    if h[n].kind != MappingNode then Err(ExpectedMappingForArray)
    else match ValueOf(h, rank, n, field)
      case None => Err(ArrayFieldNotFound(field))
      case Some(arr) =>
        if h[arr].kind != SequenceNode then Err(NotAnArray(field))
        else match segs[i].selector
          case Wildcard => Ok(Collect(h, rank, arr, |h[arr].content|, None, segs, i + 1))
          case Index(idx) =>
            if idx < 0 || idx >= |h[arr].content| then Err(IndexOutOfRange(idx))
            else Resolve(h, rank, h[arr].content[idx], segs, i + 1)
          case Cond(cond) =>
            var rs := Collect(h, rank, arr, |h[arr].content|, Some(cond), segs, i + 1);
            if |rs| == 0 then Err(NoConditionMatch) else Ok(rs)
  }

  /** Element k of arr takes part: every element for a wildcard, the matching ones for a condition. */
  ghost predicate Admits(h: Heap, rank: map<Node, nat>, e: Node, filter: Option<Condition>)
    requires Wf(h, rank) && e in h
  {
    filter.None? || MatchesCondition(h, rank, e, filter.value)
  }

  /** What one element adds: its results when it is admitted and its lookup succeeds, else nothing. */
  ghost function Contribution(h: Heap, rank: map<Node, nat>, arr: Node, e: Node, filter: Option<Condition>, segs: Path, i: nat): (r: seq<Node>)
    requires Wf(h, rank) && Below(h, rank, e, arr)
    ensures forall x | x in r :: x in h
    decreases rank[arr], 0, 0
  {
    if Admits(h, rank, e, filter) then
      match Resolve(h, rank, e, segs, i) case Ok(rs) => rs case Err(_) => []
    else []
  }

  /**
   * The results gathered from the first k elements of sequence arr, in
   * element order; an element whose lookup fails adds nothing.
   */
  ghost function Collect(h: Heap, rank: map<Node, nat>, arr: Node, k: nat, filter: Option<Condition>, segs: Path, i: nat): (r: seq<Node>)
    requires Wf(h, rank) && arr in h && k <= |h[arr].content|
    ensures forall x | x in r :: x in h
    decreases rank[arr], 0, k + 1
  {
    if k == 0 then []
    else
      Collect(h, rank, arr, k - 1, filter, segs, i) +
        Contribution(h, rank, arr, h[arr].content[k - 1], filter, segs, i)
  }

  /** `Find`: resolve the whole path from the root. */
  ghost function ResolvePath(h: Heap, rank: map<Node, nat>, root: Node, path: Path): (r: Result<seq<Node>, NavError>)
    requires Wf(h, rank) && root in h
    ensures r.Ok? ==> forall x | x in r.value :: x in h
  {
    Resolve(h, rank, root, path, 0)
  }

  // ---------------------------------------------------------------------
  // The where-clause

  /** The text of the first `name` member, or "" when there is none. */
  ghost function NameOf(h: Heap, rank: map<Node, nat>, n: Node): string
    requires Wf(h, rank) && n in h && h[n].kind == MappingNode
  {
    match ValueOf(h, rank, n, "name")
    case None => ""
    case Some(v) => h[v].value
  }

  /**
   * `matchWhere`: a mapping with a non-empty name that matches the regex
   * when one is given (a pattern that does not compile matches nothing),
   * is not excluded, and is included when an inclusion list is given.
   */
  ghost predicate WhereAccepts(h: Heap, rank: map<Node, nat>, n: Node, w: WhereCondition, std: Regex.Dialect)
    requires Wf(h, rank) && n in h
  {
    h[n].kind == MappingNode &&
    var name := NameOf(h, rank, n);
    name != "" &&
    (w.nameRegex != "" ==> Regex.MatchString(std, w.nameRegex, name)) &&
    name !in w.nameNotIn &&
    (|w.nameIn| > 0 ==> name in w.nameIn)
  }

  /** The candidates the where-clause accepts, in their original order. */
  ghost function FilterWhere(h: Heap, rank: map<Node, nat>, cands: seq<Node>, w: WhereCondition, std: Regex.Dialect): seq<Node>
    requires Wf(h, rank) && forall x | x in cands :: x in h
  {
    if |cands| == 0 then []
    else
      var last := cands[|cands| - 1];
      FilterWhere(h, rank, cands[..|cands| - 1], w, std) +
        (if WhereAccepts(h, rank, last, w, std) then [last] else [])
  }

  /** `FindWithWhere`: resolve, then filter when a where-clause is given. */
  ghost function ResolveWhere(h: Heap, rank: map<Node, nat>, root: Node, path: Path, where: Option<WhereCondition>, std: Regex.Dialect): Result<seq<Node>, NavError>
    requires Wf(h, rank) && root in h
  {
    match ResolvePath(h, rank, root, path)
    case Err(e) => Err(e)
    case Ok(cands) =>
      if where.None? then Ok(cands) else Ok(FilterWhere(h, rank, cands, where.value, std))
  }

  // ---------------------------------------------------------------------
  // The navigator's methods

  /** `Find` */
  method Find(ghost g: Region, root: Node, path: Path) returns (r: Result<seq<Node>, NavError>)
    requires Valid(g) && root in g.nodes
    ensures r == ResolvePath(Snap(g.nodes), g.rank, root, path)
  {
    r := FindRecursive(g, root, path, 0);
  }

  /** `findRecursive` */
  method FindRecursive(ghost g: Region, node: Node, segs: Path, i: nat) returns (r: Result<seq<Node>, NavError>)
    requires Valid(g) && node in g.nodes
    ensures r == Resolve(Snap(g.nodes), g.rank, node, segs, i)
    decreases g.rank[node], 2
  {
    ghost var h := Snap(g.nodes);
    assert h[node] == CellOf(node);
    if i >= |segs| {
      return Ok([node]);
    }
    if node.kind == DocumentNode {
      if |node.content| == 0 {
        return Err(EmptyDocument);
      }
      assert Below(h, g.rank, node.content[0], node);
      r := FindRecursive(g, node.content[0], segs, i);
      return;
    }
    if node.kind == AliasNode {
      r := FindRecursive(g, node.alias, segs, i);
      return;
    }
    match segs[i]
    case Field(_) =>
      r := FindField(g, node, segs, i);
    case Array(_, _) =>
      r := FindArray(g, node, segs, i);
  }

  /** The first key of a mapping equal to name, scanned pair by pair as the source does. */
  method FindKey(ghost g: Region, node: Node, name: string) returns (k: int)
    requires Valid(g) && node in g.nodes && node.kind == MappingNode
    ensures k == -1 <==> KeyIndexFrom(Snap(g.nodes), g.rank, node, name, 0).None?
    ensures k != -1 ==> KeyIndexFrom(Snap(g.nodes), g.rank, node, name, 0) == Some(k)
  {
    ghost var h := Snap(g.nodes);
    assert h[node] == CellOf(node);
    k := 0;
    while k < |node.content|
      invariant 0 <= k <= |node.content| && k % 2 == 0
      invariant forall j | 0 <= j < k && j % 2 == 0 :: h[h[node].content[j]].value != name
    {
      assert h[node.content[k]] == CellOf(node.content[k]);
      if node.content[k].value == name {
        return;
      }
      k := k + 2;
    }
    k := -1;
  }

  /** `findField` */
  method FindField(ghost g: Region, node: Node, segs: Path, i: nat) returns (r: Result<seq<Node>, NavError>)
    requires Valid(g) && node in g.nodes && i < |segs|
    ensures r == ResolveField(Snap(g.nodes), g.rank, node, segs, i)
    decreases g.rank[node], 1
  {
    ghost var h := Snap(g.nodes);
    assert h[node] == CellOf(node);
    if node.kind != MappingNode {
      return Err(ExpectedMapping(node.kind));
    }
    var k := FindKey(g, node, segs[i].field);
    if k == -1 {
      return Err(FieldNotFound(segs[i].field));
    }
    var valueNode := node.content[k + 1];
    assert Below(h, g.rank, valueNode, node);
    r := FindRecursive(g, valueNode, segs, i + 1);
  }

  /** `findArray` */
  method FindArray(ghost g: Region, node: Node, segs: Path, i: nat) returns (r: Result<seq<Node>, NavError>)
    requires Valid(g) && node in g.nodes && i < |segs| && segs[i].Array?
    ensures r == ResolveArray(Snap(g.nodes), g.rank, node, segs, i)
    decreases g.rank[node], 1
  {
    ghost var h := Snap(g.nodes);
    assert h[node] == CellOf(node);
    var field := segs[i].field;
    if node.kind != MappingNode {
      return Err(ExpectedMappingForArray);
    }
    var k := FindKey(g, node, field);
    if k == -1 {
      return Err(ArrayFieldNotFound(field));
    }
    var arrayNode := node.content[k + 1];
    assert ValueOf(h, g.rank, node, field) == Some(arrayNode);
    r := FindInArray(g, node, arrayNode, segs, i);
  }

  /** The rest of `findArray`, once the field's value is found: its kind, then the selector. */
  method FindInArray(ghost g: Region, node: Node, arrayNode: Node, segs: Path, i: nat) returns (r: Result<seq<Node>, NavError>)
    requires Valid(g) && node in g.nodes && i < |segs| && segs[i].Array?
    requires Snap(g.nodes)[node].kind == MappingNode
    requires ValueOf(Snap(g.nodes), g.rank, node, segs[i].field) == Some(arrayNode)
    ensures r == ResolveArray(Snap(g.nodes), g.rank, node, segs, i)
    decreases g.rank[node], 0
  {
    ghost var h := Snap(g.nodes);
    assert Below(h, g.rank, arrayNode, node);
    assert h[arrayNode] == CellOf(arrayNode);
    if arrayNode.kind != SequenceNode {
      return Err(NotAnArray(segs[i].field));
    }
    match segs[i].selector
    case Wildcard =>
      var results := WildcardResults(g, arrayNode, segs, i + 1);
      return Ok(results);
    case Index(idx) =>
      if idx < 0 || idx >= |arrayNode.content| {
        return Err(IndexOutOfRange(idx));
      }
      assert Below(h, g.rank, arrayNode.content[idx], arrayNode);
      r := FindRecursive(g, arrayNode.content[idx], segs, i + 1);
    case Cond(cond) =>
      var results := ConditionResults(g, arrayNode, cond, segs, i + 1);
      if |results| == 0 {
        return Err(NoConditionMatch);
      }
      return Ok(results);
  }

  /** The wildcard loop of `findArray`: every element's results, failures skipped. */
  method WildcardResults(ghost g: Region, arrayNode: Node, segs: Path, i: nat) returns (results: seq<Node>)
    requires Valid(g) && arrayNode in g.nodes
    ensures results == Collect(Snap(g.nodes), g.rank, arrayNode, |arrayNode.content|, None, segs, i)
    decreases g.rank[arrayNode], 4
  {
    ghost var h := Snap(g.nodes);
    assert h[arrayNode] == CellOf(arrayNode);
    var elems := arrayNode.content;
    results := [];
    for j := 0 to |elems|
      invariant results == Collect(h, g.rank, arrayNode, j, None, segs, i)
    {
      results := CollectStep(g, h, arrayNode, j, None, segs, i, results);
    }
  }

  /** The condition loop of `findArray`: the results of the elements that match, failures skipped. */
  method ConditionResults(ghost g: Region, arrayNode: Node, cond: Condition, segs: Path, i: nat) returns (results: seq<Node>)
    requires Valid(g) && arrayNode in g.nodes
    ensures results == Collect(Snap(g.nodes), g.rank, arrayNode, |arrayNode.content|, Some(cond), segs, i)
    decreases g.rank[arrayNode], 4
  {
    ghost var h := Snap(g.nodes);
    assert h[arrayNode] == CellOf(arrayNode);
    var elems := arrayNode.content;
    results := [];
    for j := 0 to |elems|
      invariant results == Collect(h, g.rank, arrayNode, j, Some(cond), segs, i)
    {
      results := CollectStep(g, h, arrayNode, j, Some(cond), segs, i, results);
    }
  }

  /** One round of either loop: element j's results appended to those of the elements before it. */
  method CollectStep(ghost g: Region, ghost h: Heap, arrayNode: Node, j: nat, filter: Option<Condition>, segs: Path, i: nat,
                     results: seq<Node>) returns (results2: seq<Node>)
    requires Valid(g) && arrayNode in g.nodes && h == Snap(g.nodes) && j < |arrayNode.content|
    requires results == Collect(h, g.rank, arrayNode, j, filter, segs, i)
    ensures results2 == Collect(h, g.rank, arrayNode, j + 1, filter, segs, i)
    decreases g.rank[arrayNode], 3
  {
    assert h[arrayNode] == CellOf(arrayNode);
    var found := ElementResults(g, arrayNode, j, filter, segs, i);
    CollectNext(h, g.rank, arrayNode, j, filter, segs, i);
    results2 := results + found;
  }

  /**
   * One pass of either loop: element j's results when it is admitted (for
   * a condition, when it matches) and its lookup succeeds, else nothing.
   */
  method ElementResults(ghost g: Region, arrayNode: Node, j: nat, filter: Option<Condition>, segs: Path, i: nat)
    returns (found: seq<Node>)
    requires Valid(g) && arrayNode in g.nodes && j < |arrayNode.content|
    ensures Below(Snap(g.nodes), g.rank, arrayNode.content[j], arrayNode)
    ensures found == Contribution(Snap(g.nodes), g.rank, arrayNode, arrayNode.content[j], filter, segs, i)
    decreases g.rank[arrayNode], 2
  {
    ghost var h := Snap(g.nodes);
    assert h[arrayNode] == CellOf(arrayNode);
    var e := arrayNode.content[j];
    assert Below(h, g.rank, e, arrayNode);
    var admitted := true;
    if filter.Some? {
      admitted := MatchCondition(g, e, filter.value);
    }
    found := [];
    if admitted {
      var matched := FindRecursive(g, e, segs, i);
      if matched.Ok? {
        found := matched.value;
      }
    }
  }

  /** The first j + 1 elements collect the first j and then element j's part. */
  lemma CollectNext(h: Heap, rank: map<Node, nat>, arr: Node, j: nat, filter: Option<Condition>, segs: Path, i: nat)
    requires Wf(h, rank) && arr in h && j < |h[arr].content|
    ensures Below(h, rank, h[arr].content[j], arr)
    ensures Collect(h, rank, arr, j + 1, filter, segs, i) ==
      Collect(h, rank, arr, j, filter, segs, i) + Contribution(h, rank, arr, h[arr].content[j], filter, segs, i)
  {
    assert WfCell(h, rank, arr, h[arr]);
  }

  /** `matchCondition` */
  method MatchCondition(ghost g: Region, node: Node, cond: Condition) returns (b: bool)
    requires Valid(g) && node in g.nodes
    ensures b == MatchesCondition(Snap(g.nodes), g.rank, node, cond)
  {
    ghost var h := Snap(g.nodes);
    assert h[node] == CellOf(node);
    if node.kind != MappingNode {
      return false;
    }
    var k := 0;
    while k < |node.content|
      invariant 0 <= k <= |node.content| && k % 2 == 0
      invariant cond.op != Regex ==> forall j | 0 <= j < k && j % 2 == 0 :: h[h[node].content[j]].value != cond.field
    {
      assert h[node.content[k]] == CellOf(node.content[k]);
      if node.content[k].value == cond.field {
        assert h[node.content[k + 1]] == CellOf(node.content[k + 1]);
        match cond.op
        case Equal =>
          return node.content[k + 1].value == cond.value;
        case NotEqual =>
          return node.content[k + 1].value != cond.value;
        case Regex =>
      }
      k := k + 2;
    }
    return false;
  }

  /** `FindWithWhere` */
  method FindWithWhere(ghost g: Region, root: Node, path: Path, where: Option<WhereCondition>, std: Regex.Dialect)
    returns (r: Result<seq<Node>, NavError>)
    requires Valid(g) && root in g.nodes
    ensures r == ResolveWhere(Snap(g.nodes), g.rank, root, path, where, std)
  {
    ghost var h := Snap(g.nodes);
    var candidates := Find(g, root, path);
    if candidates.Err? {
      return Err(candidates.error);
    }
    if where.None? {
      return candidates;
    }
    var cands := candidates.value;
    var results := [];
    for k := 0 to |cands|
      invariant results == FilterWhere(h, g.rank, cands[..k], where.value, std)
    {
      FilterWhereNext(h, g.rank, cands, k, where.value, std);
      var keep := MatchWhere(g, cands[k], where.value, std);
      if keep {
        results := results + [cands[k]];
      }
    }
    assert cands[..|cands|] == cands;
    return Ok(results);
  }

  /** Filtering one more candidate. */
  lemma FilterWhereNext(h: Heap, rank: map<Node, nat>, cands: seq<Node>, k: nat, w: WhereCondition, std: Regex.Dialect)
    requires Wf(h, rank) && k < |cands| && forall x | x in cands :: x in h
    ensures forall x | x in cands[..k + 1] :: x in h
    ensures FilterWhere(h, rank, cands[..k + 1], w, std) ==
      FilterWhere(h, rank, cands[..k], w, std) + (if WhereAccepts(h, rank, cands[k], w, std) then [cands[k]] else [])
  {
    assert cands[..k + 1][..k] == cands[..k];
  }

  /** `matchWhere` */
  method MatchWhere(ghost g: Region, node: Node, where: WhereCondition, std: Regex.Dialect) returns (b: bool)
    requires Valid(g) && node in g.nodes
    ensures b == WhereAccepts(Snap(g.nodes), g.rank, node, where, std)
  {
    ghost var h := Snap(g.nodes);
    assert h[node] == CellOf(node);
    if node.kind != MappingNode {
      return false;
    }
    var nameValue := NameValue(g, node);
    if nameValue == "" {
      return false;
    }
    if where.nameRegex != "" {
      var matched := std.valid(where.nameRegex) && std.matches(where.nameRegex, nameValue);
      if !matched {
        return false;
      }
    }
    if |where.nameNotIn| > 0 {
      var excluded := Contains(where.nameNotIn, nameValue);
      if excluded {
        return false;
      }
    }
    if |where.nameIn| > 0 {
      var found := Contains(where.nameIn, nameValue);
      if !found {
        return false;
      }
    }
    return true;
  }

  /** The name scan of `matchWhere`: the first `name` member's text, or "". */
  method NameValue(ghost g: Region, node: Node) returns (name: string)
    requires Valid(g) && node in g.nodes && node.kind == MappingNode
    ensures name == NameOf(Snap(g.nodes), g.rank, node)
  {
    ghost var h := Snap(g.nodes);
    assert h[node] == CellOf(node);
    name := "";
    var k := FindKey(g, node, "name");
    if k != -1 {
      assert h[node.content[k + 1]] == CellOf(node.content[k + 1]);
      name := node.content[k + 1].value;
    }
  }

  /** The list scans of `matchWhere`: whether name is one of the list's entries. */
  method Contains(list: seq<string>, name: string) returns (found: bool)
    ensures found <==> name in list
  {
    for j := 0 to |list|
      invariant name !in list[..j]
    {
      if name == list[j] {
        return true;
      }
      PrefixSnoc(list, j);
    }
    assert list[..|list|] == list;
    return false;
  }

  // ---------------------------------------------------------------------
  // Properties of resolution

  /** Element e passes the selector and its own lookup yields x. */
  ghost predicate Yields(h: Heap, rank: map<Node, nat>, e: Node, filter: Option<Condition>, segs: Path, i: nat, x: Node)
    requires Wf(h, rank) && e in h
  {
    Admits(h, rank, e, filter) && Resolve(h, rank, e, segs, i).Ok? && x in Resolve(h, rank, e, segs, i).value
  }

  /** What element j of arr contributes, as seen through Contribution's definition. */
  lemma ContributionOf(h: Heap, rank: map<Node, nat>, arr: Node, e: Node, filter: Option<Condition>, segs: Path, i: nat, x: Node)
    requires Wf(h, rank) && Below(h, rank, e, arr)
    ensures x in Contribution(h, rank, arr, e, filter, segs, i) <==> Yields(h, rank, e, filter, segs, i, x)
  {
  }

  /** The contributions of the elements of arr, in element order. */
  ghost function Contributions(h: Heap, rank: map<Node, nat>, arr: Node, filter: Option<Condition>, segs: Path, i: nat): (r: seq<seq<Node>>)
    requires Wf(h, rank) && arr in h
    ensures |r| == |h[arr].content|
  {
    assert WfCell(h, rank, arr, h[arr]);
    seq(|h[arr].content|, j requires 0 <= j < |h[arr].content| => Contribution(h, rank, arr, h[arr].content[j], filter, segs, i))
  }

  /** Gathering from the first k elements joins their contributions in element order. */
  lemma {:induction false} CollectJoins(h: Heap, rank: map<Node, nat>, arr: Node, k: nat, filter: Option<Condition>, segs: Path, i: nat)
    requires Wf(h, rank) && arr in h && k <= |h[arr].content|
    ensures Collect(h, rank, arr, k, filter, segs, i) == Concat(Contributions(h, rank, arr, filter, segs, i)[..k])
  {
    if k > 0 {
      var parts := Contributions(h, rank, arr, filter, segs, i);
      CollectJoins(h, rank, arr, k - 1, filter, segs, i);
      PrefixSnoc(parts, k - 1);
      ConcatSnoc(parts[..k - 1], parts[k - 1]);
    }
  }

  /**
   * A node is gathered from a sequence exactly when some element is
   * admitted by the selector and its own lookup succeeds with that node.
   */
  lemma CollectMembers(h: Heap, rank: map<Node, nat>, arr: Node, k: nat, filter: Option<Condition>, segs: Path, i: nat, x: Node)
    requires Wf(h, rank) && arr in h && k <= |h[arr].content|
    ensures x in Collect(h, rank, arr, k, filter, segs, i) <==>
      exists j | 0 <= j < k :: Yields(h, rank, h[arr].content[j], filter, segs, i, x)
  {
    var parts := Contributions(h, rank, arr, filter, segs, i)[..k];
    CollectJoins(h, rank, arr, k, filter, segs, i);
    ConcatMembers(parts, x);
    forall j | 0 <= j < k
      ensures x in parts[j] <==> Yields(h, rank, h[arr].content[j], filter, segs, i, x)
    {
      ContributionOf(h, rank, arr, h[arr].content[j], filter, segs, i, x);
    }
  }

  /** With no segments left, every element resolves to itself. */
  lemma {:induction false} CollectAtEnd(h: Heap, rank: map<Node, nat>, arr: Node, k: nat, segs: Path, i: nat)
    requires Wf(h, rank) && arr in h && k <= |h[arr].content|
    requires i >= |segs|
    ensures Collect(h, rank, arr, k, None, segs, i) == h[arr].content[..k]
  {
    if k > 0 {
      CollectAtEnd(h, rank, arr, k - 1, segs, i);
      assert WfCell(h, rank, arr, h[arr]);
      ContributionAtEnd(h, rank, arr, h[arr].content[k - 1], segs, i);
      PrefixGrows(Collect(h, rank, arr, k, None, segs, i), h[arr].content, k - 1);
    }
  }

  /** With no segments left, an element of a wildcard contributes itself. */
  lemma ContributionAtEnd(h: Heap, rank: map<Node, nat>, arr: Node, e: Node, segs: Path, i: nat)
    requires Wf(h, rank) && Below(h, rank, e, arr) && i >= |segs|
    ensures Contribution(h, rank, arr, e, None, segs, i) == [e]
  {
    assert Resolve(h, rank, e, segs, i) == Ok([e]);
  }

  /** A wildcard at the end of a path yields the sequence's elements themselves, in order. */
  lemma WildcardAtEnd(h: Heap, rank: map<Node, nat>, n: Node, segs: Path)
    requires Wf(h, rank) && n in h && |segs| > 0
    requires segs[|segs| - 1] == Array(segs[|segs| - 1].field, Wildcard)
    requires h[n].kind == MappingNode && ValueOf(h, rank, n, segs[|segs| - 1].field).Some?
    requires h[ValueOf(h, rank, n, segs[|segs| - 1].field).value].kind == SequenceNode
    ensures ResolveArray(h, rank, n, segs, |segs| - 1) ==
      Ok(h[ValueOf(h, rank, n, segs[|segs| - 1].field).value].content)
  {
    var arr := ValueOf(h, rank, n, segs[|segs| - 1].field).value;
    CollectAtEnd(h, rank, arr, |h[arr].content|, segs, |segs|);
    assert h[arr].content[..|h[arr].content|] == h[arr].content;
  }

  /** A segment that picks at most one node: a field, or an array segment with an index. */
  predicate SingleStep(s: Segment)
  {
    s.Field? || s.selector.Index?
  }

  /** Fields and indexes alone never fan out: a successful lookup yields exactly one node. */
  lemma {:induction false} SingleValued(h: Heap, rank: map<Node, nat>, n: Node, segs: Path, i: nat)
    requires Wf(h, rank) && n in h
    requires forall j | i <= j < |segs| :: SingleStep(segs[j])
    ensures Resolve(h, rank, n, segs, i).Ok? ==> |Resolve(h, rank, n, segs, i).value| == 1
    decreases rank[n]
  {
    if i < |segs| {
      var c := h[n];
      if c.kind == DocumentNode {
        if |c.content| > 0 {
          SingleValued(h, rank, c.content[0], segs, i);
        }
      } else if c.kind == AliasNode {
        SingleValued(h, rank, c.alias, segs, i);
      } else if c.kind == MappingNode {
        match ValueOf(h, rank, n, segs[i].field)
        case None =>
        case Some(v) =>
          if segs[i].Field? {
            SingleValued(h, rank, v, segs, i + 1);
          } else if h[v].kind == SequenceNode {
            var idx := segs[i].selector.index;
            if 0 <= idx < |h[v].content| {
              SingleValued(h, rank, h[v].content[idx], segs, i + 1);
            }
          }
      }
    }
  }

  lemma CollectBound(h: Heap, rank: map<Node, nat>, arr: Node, k: nat, segs: Path, i: nat)
    requires Wf(h, rank) && arr in h && k <= |h[arr].content|
    requires forall j | i <= j < |segs| :: SingleStep(segs[j])
    ensures |Collect(h, rank, arr, k, None, segs, i)| <= k
  {
    var parts := Contributions(h, rank, arr, None, segs, i)[..k];
    CollectJoins(h, rank, arr, k, None, segs, i);
    forall j | 0 <= j < k
      ensures |parts[j]| <= 1
    {
      assert WfCell(h, rank, arr, h[arr]);
      ContributionSingle(h, rank, arr, h[arr].content[j], segs, i);
    }
    ConcatBound(parts);
  }

  /** Under a wildcard, an element followed only by fields and indexes contributes at most one node. */
  lemma ContributionSingle(h: Heap, rank: map<Node, nat>, arr: Node, e: Node, segs: Path, i: nat)
    requires Wf(h, rank) && Below(h, rank, e, arr)
    requires forall j | i <= j < |segs| :: SingleStep(segs[j])
    ensures |Contribution(h, rank, arr, e, None, segs, i)| <= 1
  {
    SingleValued(h, rank, e, segs, i);
  }

  /**
   * A wildcard followed only by fields and indexes yields at most one node
   * per element, so no more nodes than the sequence has elements.
   */
  lemma WildcardBound(h: Heap, rank: map<Node, nat>, n: Node, segs: Path, i: nat)
    requires Wf(h, rank) && n in h && i < |segs| && segs[i] == Array(segs[i].field, Wildcard)
    requires forall j | i < j < |segs| :: SingleStep(segs[j])
    ensures var r := ResolveArray(h, rank, n, segs, i);
      r.Ok? ==>
        h[n].kind == MappingNode && ValueOf(h, rank, n, segs[i].field).Some? &&
        |r.value| <= |h[ValueOf(h, rank, n, segs[i].field).value].content|
  {
    if h[n].kind == MappingNode && ValueOf(h, rank, n, segs[i].field).Some? {
      var arr := ValueOf(h, rank, n, segs[i].field).value;
      CollectBound(h, rank, arr, |h[arr].content|, segs, i + 1);
    }
  }

  /** Every node a condition selector yields comes from an element that satisfies the condition. */
  lemma ConditionResultsMatch(h: Heap, rank: map<Node, nat>, n: Node, segs: Path, i: nat, x: Node)
    requires Wf(h, rank) && n in h && i < |segs| && segs[i].Array? && segs[i].selector.Cond?
    requires ResolveArray(h, rank, n, segs, i).Ok? && x in ResolveArray(h, rank, n, segs, i).value
    ensures h[n].kind == MappingNode && ValueOf(h, rank, n, segs[i].field).Some?
    ensures var elems := h[ValueOf(h, rank, n, segs[i].field).value].content;
      exists j | 0 <= j < |elems| ::
        MatchesCondition(h, rank, elems[j], segs[i].selector.cond) &&
        Resolve(h, rank, elems[j], segs, i + 1).Ok? &&
        x in Resolve(h, rank, elems[j], segs, i + 1).value
  {
    var arr := ValueOf(h, rank, n, segs[i].field).value;
    CollectMembers(h, rank, arr, |h[arr].content|, Some(segs[i].selector.cond), segs, i + 1, x);
  }

  lemma {:induction false} CollectRegexEmpty(h: Heap, rank: map<Node, nat>, arr: Node, k: nat, cond: Condition, segs: Path, i: nat)
    requires Wf(h, rank) && arr in h && k <= |h[arr].content| && cond.op == Regex
    ensures Collect(h, rank, arr, k, Some(cond), segs, i) == []
  {
    if k > 0 {
      CollectRegexEmpty(h, rank, arr, k - 1, cond, segs, i);
    }
  }

  /**
   * Since matchCondition has no regex branch, an array segment with a
   * regex condition never resolves: it fails as soon as the sequence is
   * reached, with "no elements match condition".
   */
  lemma RegexConditionNeverResolves(h: Heap, rank: map<Node, nat>, n: Node, segs: Path, i: nat)
    requires Wf(h, rank) && n in h && i < |segs| && segs[i].Array?
    requires segs[i].selector.Cond? && segs[i].selector.cond.op == Regex
    ensures ResolveArray(h, rank, n, segs, i).Err?
  {
    if h[n].kind == MappingNode && ValueOf(h, rank, n, segs[i].field).Some? {
      var arr := ValueOf(h, rank, n, segs[i].field).value;
      CollectRegexEmpty(h, rank, arr, |h[arr].content|, segs[i].selector.cond, segs, i + 1);
    }
  }

  // ---------------------------------------------------------------------
  // Properties of the where-clause

  /** The positions of the candidates the where-clause keeps. */
  ghost function KeptIndices(h: Heap, rank: map<Node, nat>, cands: seq<Node>, w: WhereCondition, std: Regex.Dialect): seq<nat>
    requires Wf(h, rank) && forall x | x in cands :: x in h
  {
    if |cands| == 0 then []
    else
      KeptIndices(h, rank, cands[..|cands| - 1], w, std) +
        (if WhereAccepts(h, rank, cands[|cands| - 1], w, std) then [|cands| - 1] else [])
  }

  /**
   * Filtering by the where-clause keeps an order-preserving subsequence of
   * the candidates: exactly those the clause accepts.
   */
  lemma {:induction false} FilterWhereSubsequence(h: Heap, rank: map<Node, nat>, cands: seq<Node>, w: WhereCondition, std: Regex.Dialect)
    requires Wf(h, rank) && forall x | x in cands :: x in h
    ensures KeptInOrder(FilterWhere(h, rank, cands, w, std), cands, KeptIndices(h, rank, cands, w, std),
                        (x: Node) => x in h && WhereAccepts(h, rank, x, w, std))
  {
    if |cands| > 0 {
      var k := |cands| - 1;
      var front := cands[..k];
      assert forall x | x in front :: x in cands;
      FilterWhereSubsequence(h, rank, front, w, std);
      KeptInOrderSnoc(FilterWhere(h, rank, front, w, std), front, KeptIndices(h, rank, front, w, std),
                      (x: Node) => x in h && WhereAccepts(h, rank, x, w, std), cands[k]);
      assert front + [cands[k]] == cands;
    }
  }
}
