/**
 * The document tree the core reads and rewrites: yaml.v3 nodes. Nodes are
 * heap objects because the engine overwrites them in place and deletes by
 * reference identity. Presentation fields (style, anchor, comments, line
 * and column) play no part in the core and are left out.
 *
 * Specifications read the heap through a snapshot: a map from each node
 * of a region to its field values. A region also carries a ghost rank
 * that strictly decreases from a node to its children and alias target,
 * which rules out cycles and is what recursion over the tree decreases.
 */
module YamlTree {

  datatype Kind = DocumentNode | SequenceNode | MappingNode | ScalarNode | AliasNode

  class Node {
    var kind: Kind
    var value: string
    var tag: string
    /** Document: its one child; Sequence: the elements; Mapping: key, value, key, value, ... */
    var content: seq<Node>
    /** the anchored node an Alias refers to */
    var alias: Node?

    constructor (kind: Kind, value: string, tag: string, content: seq<Node>, alias: Node?)
      ensures this.kind == kind && this.value == value && this.tag == tag
      ensures this.content == content && this.alias == alias
    {
      this.kind := kind;
      this.value := value;
      this.tag := tag;
      this.content := content;
      this.alias := alias;
    }
  }

  /** The field values of one node. */
  datatype Cell = Cell(kind: Kind, value: string, tag: string, content: seq<Node>, alias: Node?)

  type Heap = map<Node, Cell>

  ghost function CellOf(n: Node): Cell
    reads n
  {
    Cell(n.kind, n.value, n.tag, n.content, n.alias)
  }

  ghost function Snap(nodes: set<Node>): (h: Heap)
    reads nodes
    ensures h.Keys == nodes
    ensures forall n | n in nodes :: h[n] == CellOf(n)
  {
    map n | n in nodes :: CellOf(n)
  }

  /** The snapshot of two sets of nodes is the union of their snapshots. */
  lemma SnapUnion(A: set<Node>, B: set<Node>)
    ensures Snap(A + B) == Snap(A) + Snap(B)
  {
  }

  /** m is in the heap and ranks strictly below n. */
  ghost predicate Below(h: Heap, rank: map<Node, nat>, m: Node, n: Node)
  {
    m in h && m in rank && n in rank && rank[m] < rank[n]
  }

  /**
   * What the core relies on of one node: its children and alias target
   * are in the heap and rank lower, an alias has a target, and a mapping
   * holds whole key/value pairs.
   */
  ghost predicate WfCell(h: Heap, rank: map<Node, nat>, n: Node, c: Cell)
  {
    (forall k | 0 <= k < |c.content| :: Below(h, rank, c.content[k], n)) &&
    (c.alias != null ==> Below(h, rank, c.alias, n)) &&
    (c.kind == AliasNode ==> c.alias != null) &&
    (c.kind == MappingNode ==> |c.content| % 2 == 0)
  }

  ghost predicate Wf(h: Heap, rank: map<Node, nat>)
  {
    forall n {:trigger h[n]} | n in h :: n in rank && WfCell(h, rank, n, h[n])
  }

  /** The nodes of a document and their ranks. */
  datatype Region = Region(nodes: set<Node>, rank: map<Node, nat>)

  ghost predicate Valid(g: Region)
    reads g.nodes
  {
    Wf(Snap(g.nodes), g.rank)
  }
}
