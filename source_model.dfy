/**
 * The parsed source tree, reduced to what the patch loops use: the nodes in
 * the order the walk yields them, each with a kind tag, a name, its verbatim
 * source segment and a body that the patcher updates in place.
 */
module SourceModel {
  import opened Extraction

  /** The node kinds the loops distinguish; every other node kind is OtherNode. */
  datatype Kind = FunctionDef | AsyncFunctionDef | OtherNode

  /** A statement: a constant expression (a docstring) or any other statement, kept as its text. */
  datatype Stmt = ConstantExpr(value: string) | OtherStmt(source: string)

  type Body = seq<Stmt>

  /** The serialised tree: the bodies of all walked nodes, in walk order. */
  type Snapshot = seq<Body>

  /** The Patcher: the documentation statement goes first, the old statements follow in order. */
  function Prepend(doc: string, body: Body): (b: Body)
    ensures |b| == |body| + 1
    ensures b[0] == ConstantExpr(doc) && b[1..] == body
  {
    [ConstantExpr(doc)] + body
  }

  /** Patching is not idempotent: two patches leave two documentation statements. */
  lemma PrependTwice(d1: string, d2: string, body: Body)
    ensures Prepend(d2, Prepend(d1, body)) == [ConstantExpr(d2), ConstantExpr(d1)] + body
    ensures Prepend(d2, Prepend(d1, body)) != Prepend(d1, body)
  {
    assert |Prepend(d2, Prepend(d1, body))| == |body| + 2;
  }

  /** `after` is `before` with one marker-free documentation statement put in front. */
  predicate Documented(after: Body, before: Body) {
    |after| == |before| + 1 && after[0].ConstantExpr? && !ContainsMarker(after[0].value)
    && after[1..] == before
  }

  /**
   * One node of the walked tree.  The name appears only in the printed
   * messages, which are not modelled; it is kept so that a node is the
   * source's node.
   */
  class Node {
    const kind: Kind
    const name: string
    const code: string
    var body: Body

    constructor (kind: Kind, name: string, code: string, body: Body)
      ensures this.kind == kind && this.name == name && this.code == code && this.body == body
    {
      this.kind := kind;
      this.name := name;
      this.code := code;
      this.body := body;
    }

    /** `node.body = [ast.Expr(ast.Constant(doc))] + node.body` */
    method Patch(doc: string)
      modifies this
      ensures body == Prepend(doc, old(body))
    {
      body := Prepend(doc, body);
    }
  }

  /** The walk yields every node once. */
  predicate Distinct(nodes: seq<Node>) {
    forall i, j :: 0 <= i < j < |nodes| ==> nodes[i] != nodes[j]
  }

  /** Patches node `i` in place; the serialisation changes in that node only. */
  method PatchAt(nodes: seq<Node>, i: nat, doc: string)
    requires Distinct(nodes) && i < |nodes|
    modifies nodes[i]
    ensures Bodies(nodes) == old(Bodies(nodes))[i := Prepend(doc, old(Bodies(nodes))[i])]
  {
    nodes[i].Patch(doc);
  }

  /** What does not change while the loop runs: kind, name (used by no rule) and source of each node. */
  datatype NodeInfo = NodeInfo(kind: Kind, name: string, code: string)

  function Infos(nodes: seq<Node>): (s: seq<NodeInfo>)
    ensures |s| == |nodes|
    ensures forall i :: 0 <= i < |nodes| ==> s[i] == NodeInfo(nodes[i].kind, nodes[i].name, nodes[i].code)
  {
    if nodes == [] then [] else [NodeInfo(nodes[0].kind, nodes[0].name, nodes[0].code)] + Infos(nodes[1..])
  }

  /** The serialisation of the current tree (`ast.unparse(tree)`). */
  function Bodies(nodes: seq<Node>): (s: Snapshot)
    reads nodes
    ensures |s| == |nodes|
    ensures forall i :: 0 <= i < |nodes| ==> s[i] == nodes[i].body
  {
    if nodes == [] then [] else [nodes[0].body] + Bodies(nodes[1..])
  }

  /** The state a patch loop threads: the tree, the oracle's call counter, the file writes so far. */
  datatype Run = Run(bodies: Snapshot, calls: nat, writes: seq<Snapshot>)

  /** What the file holds: the last write, or the original tree when nothing was written. */
  function Disk(r: Run, original: Snapshot): Snapshot {
    if r.writes == [] then original else r.writes[|r.writes| - 1]
  }
}
