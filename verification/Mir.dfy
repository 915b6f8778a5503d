/** The compiler's graph (`mir.rs`), one constructor for every distinct treatment in the bridge. */
module Mir {
  import opened Wrappers
  import opened ShapeOps
  import opened Weights

  /** Silu and softmax nodes are recognised by the alias rules. A listed operation has a counterpart
      among the emitted ones that has no place for the attributes `lost`, as for the epsilon of a
      logarithm; its `tag` includes the attributes carried over. An unlisted one has no counterpart
      and leaves all `attributes` behind. */
  datatype UnaryKind = Silu | Softmax | Listed(tag: string, lost: string) | Unlisted(tag: string, attributes: string)

  /** The reductions that have a counterpart among the emitted operations. */
  const LISTED_REDUCTIONS: set<string> := {"mean", "sum", "max", "min", "prod"}

  /** Names of operands are node ids, weight names, or aliases of node ids. */
  datatype MirOp =
    | Const(name: string, valuePath: string, dtype: Dtype)
    | Linear(name: string, x: string, weight: string, bias: Option<string>)
    | LayerNorm(name: string, x: string, weight: string, bias: Option<string>)
    | Unary(kind: UnaryKind, name: string, x: string)
    | Binary(tag: string, name: string, x: string, y: string)
    | Where(name: string, condition: string, x: string, y: string)
    | Select(name: string, condition: string, x: string, y: string)
    | MatMul(name: string, x: string, y: string, transposeY: bool)
    | Attention(name: string, query: string, key: string, value: string, mask: Option<string>)
    | Gather(name: string, x: string, indices: string, gatherAxis: int)
    | Concat(name: string, values: seq<string>, axis: nat)
    | Stack(name: string, values: seq<string>, axis: nat)
    | Split(name: string, x: string, axis: nat, numSplits: nat)
    | SliceByIndex(name: string, x: string, begin: seq<int>, end: seq<int>, stride: seq<int>,
                   beginMask: seq<bool>, endMask: seq<bool>, squeezeMask: seq<bool>)
    | Reduce(tag: string, name: string, x: string, axes: seq<nat>, keepDims: bool)
    | Reshape(name: string, x: string, target: Shape)
    | Transpose(name: string, x: string, perm: seq<nat>)
    | Tile(name: string, x: string, reps: seq<nat>)
    | ExpandDims(name: string, x: string, axes: seq<nat>)
    | Squeeze(name: string, x: string, axes: seq<nat>)
    | Pad(name: string, x: string, padAmounts: seq<nat>)
    | Topk(name: string, x: string, k: nat, topkAxis: int)
    | Flatten2d(name: string, x: string, axis: nat)
    | Conv(name: string, x: string, kernel: string, strides: seq<nat>, padAmounts: seq<nat>, dilations: seq<nat>)
    | ConvTranspose(name: string, x: string, kernel: string, outputShape: Shape)
    | Fill(name: string, target: Shape)
    | ReadState(name: string, stateId: string, target: Shape, dtype: Dtype)
    | UpdateState(name: string, stateId: string, update: string)
    | Identity(name: string, x: string)
    | Other(tag: string, name: string, inputs: seq<string>, attributes: string)

  datatype MirNode = MirNode(id: string, op: MirOp, shape: Shape, dtype: Dtype)

  datatype MirGraph = MirGraph(nodes: seq<MirNode>, inputs: seq<string>, outputs: seq<string>,
                               inputShapes: map<string, Shape>)

  const PLACEHOLDER: string := "__placeholder__"

  ghost predicate UniqueIds(nodes: seq<MirNode>) {
    forall i, j :: 0 <= i < j < |nodes| ==> nodes[i].id != nodes[j].id
  }

  /** A map collected from the nodes keeps the last node of an id. */
  function FindNode(nodes: seq<MirNode>, id: string): (r: Option<MirNode>)
    ensures r.Some? ==> r.value in nodes && r.value.id == id
    ensures r.None? ==> forall n | n in nodes :: n.id != id
    ensures r.Some? ==> exists k :: 0 <= k < |nodes| && nodes[k] == r.value && forall j | k < j < |nodes| :: nodes[j].id != id
  {
    if nodes == [] then None
    else if nodes[|nodes| - 1].id == id then Some(nodes[|nodes| - 1])
    else FindNode(nodes[..|nodes| - 1], id)
  }
}
