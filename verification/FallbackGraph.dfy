/** The transformer graph built without a trace (`trace_model.py`). */
module FallbackGraph {
  import opened Wrappers
  import opened Strings
  import SsaChecker

  datatype OpType = Placeholder | Embedding | RmsNorm | AttentionBlock | MlpBlock | Slice | Linear | Output

  datatype Node = Node(id: string, op: OpType, inputs: seq<string>)

  /** The nodes of a layer. */
  datatype Part = InputNorm | SelfAttn | PostAttnNorm | Mlp

  function PartSuffix(part: Part): (s: string)
    ensures s != "" && s[0] == '_'
  {
    match part
    case InputNorm => "_input_norm"
    case SelfAttn => "_self_attn"
    case PostAttnNorm => "_post_attn_norm"
    case Mlp => "_mlp"
  }

  function LayerId(i: nat, part: Part): string {
    "layer_" + Decimal(i) + PartSuffix(part)
  }

  // ----- the graph as a function of its parameters

  function Head(encoderDecoder: bool): seq<Node> {
    if encoderDecoder then
      [Node("encoder_hidden_states", Placeholder, []), Node("decoder_input_ids", Placeholder, []),
       Node("embed_tokens", Embedding, ["decoder_input_ids"])]
    else
      [Node("input_ids", Placeholder, []), Node("embed_tokens", Embedding, ["input_ids"])]
  }

  /** What leaves the first `i` layers. */
  function BlockOutput(i: nat): string {
    if i == 0 then "embed_tokens" else LayerId(i - 1, Mlp)
  }

  /** Layer `i`: each of its two blocks reads the normed stream and, as its residual, the
      output of the block before it. */
  function Layer(i: nat, rmsNorm: bool): seq<Node> {
    var before, attn := BlockOutput(i), LayerId(i, SelfAttn);
    if rmsNorm then
      [Node(LayerId(i, InputNorm), RmsNorm, [before]),
       Node(attn, AttentionBlock, [LayerId(i, InputNorm), before]),
       Node(LayerId(i, PostAttnNorm), RmsNorm, [attn]),
       Node(LayerId(i, Mlp), MlpBlock, [LayerId(i, PostAttnNorm), attn])]
    else
      [Node(attn, AttentionBlock, [before, before]), Node(LayerId(i, Mlp), MlpBlock, [attn, attn])]
  }

  function Layers(n: nat, rmsNorm: bool): seq<Node> {
    if n == 0 then [] else Layers(n - 1, rmsNorm) + Layer(n - 1, rmsNorm)
  }

  function Tail(n: nat, rmsNorm: bool): seq<Node> {
    var norm := if rmsNorm then [Node("final_norm", RmsNorm, [BlockOutput(n)])] else [];
    norm + LastNodes(if rmsNorm then "final_norm" else BlockOutput(n))
  }

  function Graph(numLayers: nat, rmsNorm: bool, encoderDecoder: bool): seq<Node> {
    Head(encoderDecoder) + Layers(numLayers, rmsNorm) + Tail(numLayers, rmsNorm)
  }

  method BuildFallbackGraph(numLayers: nat, rmsNorm: bool, encoderDecoder: bool) returns (nodes: seq<Node>)
    ensures nodes == Graph(numLayers, rmsNorm, encoderDecoder)
  {
    nodes := [];
    if encoderDecoder {
      nodes := nodes + [Node("encoder_hidden_states", Placeholder, [])];
      nodes := nodes + [Node("decoder_input_ids", Placeholder, [])];
    } else {
      nodes := nodes + [Node("input_ids", Placeholder, [])];
    }
    var embedInput := if encoderDecoder then "decoder_input_ids" else "input_ids";
    nodes := nodes + [Node("embed_tokens", Embedding, [embedInput])];
    var prevId := "embed_tokens";
    for i := 0 to numLayers
      invariant nodes == Head(encoderDecoder) + Layers(i, rmsNorm)
      invariant prevId == BlockOutput(i)
    {
      ConcatAssoc(Head(encoderDecoder), Layers(i, rmsNorm), Layer(i, rmsNorm));
      nodes, prevId := AppendLayer(nodes, prevId, i, rmsNorm);
    }
    nodes := AppendTail(nodes, prevId, numLayers, rmsNorm);
  }

  /** What follows the layer loop. */
  method AppendTail(before: seq<Node>, input: string, numLayers: nat, rmsNorm: bool) returns (nodes: seq<Node>)
    requires input == BlockOutput(numLayers)
    ensures nodes == before + Tail(numLayers, rmsNorm)
  {
    nodes := before;
    var prevId := input;
    if rmsNorm {
      nodes := nodes + [Node("final_norm", RmsNorm, [prevId])];
      prevId := "final_norm";
    }
    nodes := nodes + [Node("hidden_state_last_token", Slice, [prevId])];
    nodes := nodes + [Node("lm_head", Linear, ["hidden_state_last_token"])];
    nodes := nodes + [Node("output", Output, ["lm_head"])];
  }

  /** One pass of the layer loop. */
  method AppendLayer(before: seq<Node>, input: string, i: nat, rmsNorm: bool) returns (nodes: seq<Node>, prevId: string)
    requires input == BlockOutput(i)
    ensures nodes == before + Layer(i, rmsNorm)
    ensures prevId == BlockOutput(i + 1)
  {
    nodes, prevId := before, input;
    var attnResidualId := prevId;
    if rmsNorm {
      nodes := nodes + [Node(LayerId(i, InputNorm), RmsNorm, [prevId])];
      prevId := LayerId(i, InputNorm);
    }
    nodes := nodes + [Node(LayerId(i, SelfAttn), AttentionBlock, [prevId, attnResidualId])];
    prevId := LayerId(i, SelfAttn);
    var mlpResidualId := prevId;
    if rmsNorm {
      nodes := nodes + [Node(LayerId(i, PostAttnNorm), RmsNorm, [prevId])];
      prevId := LayerId(i, PostAttnNorm);
    }
    nodes := nodes + [Node(LayerId(i, Mlp), MlpBlock, [prevId, mlpResidualId])];
    prevId := LayerId(i, Mlp);
  }

  lemma {:induction false} LayersLength(n: nat, rmsNorm: bool)
    ensures |Layers(n, rmsNorm)| == n * if rmsNorm then 4 else 2
  {
    if n > 0 { LayersLength(n - 1, rmsNorm); }
  }

  lemma {:induction false} NodeCount(numLayers: nat, rmsNorm: bool, encoderDecoder: bool)
    ensures |Graph(numLayers, rmsNorm, encoderDecoder)|
         == (if rmsNorm then 4 * numLayers + 6 else 2 * numLayers + 5) + if encoderDecoder then 1 else 0
  {
    LayersLength(numLayers, rmsNorm);
  }

  /** The nodes of layer `i` stand where the layers before it end. */
  lemma {:induction false} LayerAt(n: nat, rmsNorm: bool, i: nat)
    requires i < n
    ensures var w := if rmsNorm then 4 else 2;
            i * w + w <= |Layers(n, rmsNorm)| && Layers(n, rmsNorm)[i * w..i * w + w] == Layer(i, rmsNorm)
  {
    var w, init, last := if rmsNorm then 4 else 2, Layers(n - 1, rmsNorm), Layer(n - 1, rmsNorm);
    LayersLength(n - 1, rmsNorm);
    if i < n - 1 {
      LayerAt(n - 1, rmsNorm, i);
      AppendKeepsSlice(init, last, i * w, i * w + w);
    } else {
      AppendedSlice(init, last);
    }
  }

  lemma {:induction false} AppendKeepsSlice<T>(s: seq<T>, t: seq<T>, i: nat, j: nat)
    requires i <= j <= |s|
    ensures (s + t)[i..j] == s[i..j]
  {
  }

  lemma {:induction false} AppendedSlice<T>(s: seq<T>, t: seq<T>)
    ensures (s + t)[|s|..|s| + |t|] == t
  {
  }

  // ----- every input is produced earlier, under a unique id

  ghost predicate Emits(nodes: seq<Node>, id: string) {
    exists j :: 0 <= j < |nodes| && nodes[j].id == id
  }

  ghost predicate Ordered(nodes: seq<Node>) {
    && (forall i, j :: 0 <= i < j < |nodes| ==> nodes[i].id != nodes[j].id)
    && (forall k, id :: 0 <= k < |nodes| && id in nodes[k].inputs ==> Emits(nodes[..k], id))
  }

  lemma {:induction false} OrderedAppend(nodes: seq<Node>, node: Node)
    requires Ordered(nodes)
    requires !Emits(nodes, node.id)
    requires forall id | id in node.inputs :: Emits(nodes, id)
    ensures Ordered(nodes + [node])
    ensures forall id :: Emits(nodes + [node], id) <==> Emits(nodes, id) || id == node.id
  {
    var more := nodes + [node];
    forall k, id | 0 <= k < |more| && id in more[k].inputs ensures Emits(more[..k], id) {
      assert more[..k] == nodes[..k];
      if k == |nodes| { assert nodes[..k] == nodes; }
    }
    forall id ensures Emits(more, id) <==> Emits(nodes, id) || id == node.id {
      if Emits(nodes, id) {
        var j :| 0 <= j < |nodes| && nodes[j].id == id;
        assert more[j].id == id;
      }
      assert more[|nodes|].id == node.id;
    }
  }

  /** The ids that do not belong to a layer. */
  const FIXED: set<string> := {"encoder_hidden_states", "decoder_input_ids", "input_ids", "embed_tokens",
                               "final_norm", "hidden_state_last_token", "lm_head", "output"}

  lemma {:induction false} FixedIsNoLayer(id: string, i: nat, part: Part)
    requires id in FIXED
    ensures id != LayerId(i, part)
  {
    var l := LayerId(i, part);
    assert l[0] == 'l' && l[1] == 'a';
    assert "lm_head"[1] == 'm';
  }

  lemma {:induction false} LayerIdInjective(i: nat, part: Part, j: nat, other: Part)
    requires LayerId(i, part) == LayerId(j, other)
    ensures i == j && part == other
  {
    JoinAssoc("layer_", Decimal(i), PartSuffix(part));
    JoinAssoc("layer_", Decimal(j), PartSuffix(other));
    SameTail("layer_", Decimal(i) + PartSuffix(part), Decimal(j) + PartSuffix(other));
    NumberEndsAtUnderscore(i, PartSuffix(part), j, PartSuffix(other));
    PartSuffixInjective(part, other);
  }

  lemma {:induction false} NumberEndsAtUnderscore(m: nat, s: string, n: nat, t: string)
    requires s != "" && s[0] == '_' && t != "" && t[0] == '_'
    requires Decimal(m) + s == Decimal(n) + t
    ensures m == n && s == t
  {
    UpToStops(Decimal(m), '_', s);
    UpToStops(Decimal(n), '_', t);
    DecimalInjective(m, n);
    assert (Decimal(m) + s)[|Decimal(m)|..] == s && (Decimal(n) + t)[|Decimal(n)|..] == t;
  }

  lemma {:induction false} PartSuffixInjective(part: Part, other: Part)
    requires PartSuffix(part) == PartSuffix(other)
    ensures part == other
  {
    assert |PartSuffix(InputNorm)| == 11 && |PartSuffix(SelfAttn)| == 10 && |PartSuffix(PostAttnNorm)| == 15 && |PartSuffix(Mlp)| == 4;
  }

  lemma {:induction false} ConcatAssoc(a: seq<Node>, b: seq<Node>, c: seq<Node>)
    ensures a + b + c == a + (b + c)
  {
  }

  ghost predicate FromLayers(id: string, n: nat) {
    exists i, part :: 0 <= i < n && id == LayerId(i, part)
  }

  ghost predicate HeadId(id: string, encoderDecoder: bool) {
    id == "embed_tokens" || if encoderDecoder then id == "encoder_hidden_states" || id == "decoder_input_ids" else id == "input_ids"
  }

  lemma {:induction false} HeadOrdered(encoderDecoder: bool)
    ensures Ordered(Head(encoderDecoder))
    ensures forall id :: Emits(Head(encoderDecoder), id) <==> HeadId(id, encoderDecoder)
  {
    var none: seq<Node> := [];
    if encoderDecoder {
      OrderedAppend(none, Node("encoder_hidden_states", Placeholder, []));
      var one := [Node("encoder_hidden_states", Placeholder, [])];
      assert none + one == one;
      OrderedAppend(one, Node("decoder_input_ids", Placeholder, []));
      var two := one + [Node("decoder_input_ids", Placeholder, [])];
      OrderedAppend(two, Node("embed_tokens", Embedding, ["decoder_input_ids"]));
      assert two + [Node("embed_tokens", Embedding, ["decoder_input_ids"])] == Head(true);
    } else {
      OrderedAppend(none, Node("input_ids", Placeholder, []));
      var one := [Node("input_ids", Placeholder, [])];
      assert none + one == one;
      OrderedAppend(one, Node("embed_tokens", Embedding, ["input_ids"]));
      assert one + [Node("embed_tokens", Embedding, ["input_ids"])] == Head(false);
    }
  }

  /** The ids emitted by the head and `n` layers, besides those of `extra`. */
  ghost predicate KnownIds(nodes: seq<Node>, n: nat, encoderDecoder: bool, extra: set<string>) {
    forall id :: Emits(nodes, id) ==> HeadId(id, encoderDecoder) || FromLayers(id, n) || id in extra
  }

  lemma {:induction false} FreshPart(nodes: seq<Node>, n: nat, encoderDecoder: bool, extra: set<string>, part: Part)
    requires KnownIds(nodes, n, encoderDecoder, extra)
    requires LayerId(n, part) !in extra
    ensures !Emits(nodes, LayerId(n, part))
  {
    var id := LayerId(n, part);
    if HeadId(id, encoderDecoder) { FixedIsNoLayer(id, n, part); }
    if FromLayers(id, n) {
      var i, other :| 0 <= i < n && id == LayerId(i, other);
      LayerIdInjective(n, part, i, other);
    }
  }

  lemma {:induction false} LayerStep(nodes: seq<Node>, n: nat, encoderDecoder: bool, extra: set<string>, part: Part, op: OpType, inputs: seq<string>)
    requires Ordered(nodes) && KnownIds(nodes, n, encoderDecoder, extra)
    requires LayerId(n, part) !in extra
    requires forall id | id in inputs :: Emits(nodes, id)
    ensures Ordered(nodes + [Node(LayerId(n, part), op, inputs)])
    ensures KnownIds(nodes + [Node(LayerId(n, part), op, inputs)], n, encoderDecoder, extra + {LayerId(n, part)})
    ensures Emits(nodes + [Node(LayerId(n, part), op, inputs)], LayerId(n, part))
    ensures forall id | Emits(nodes, id) :: Emits(nodes + [Node(LayerId(n, part), op, inputs)], id)
  {
    FreshPart(nodes, n, encoderDecoder, extra, part);
    OrderedAppend(nodes, Node(LayerId(n, part), op, inputs));
  }

  lemma {:induction false} PartsDiffer(n: nat)
    ensures forall part, other | part != other :: LayerId(n, part) != LayerId(n, other)
  {
    forall part, other | part != other ensures LayerId(n, part) != LayerId(n, other) {
      if LayerId(n, part) == LayerId(n, other) { LayerIdInjective(n, part, n, other); }
    }
  }

  /** Once the layer is complete its ids are those of one more layer. */
  lemma {:induction false} LayerIdsKnown(nodes: seq<Node>, n: nat, encoderDecoder: bool, extra: set<string>)
    requires KnownIds(nodes, n, encoderDecoder, extra)
    requires extra <= {LayerId(n, InputNorm), LayerId(n, SelfAttn), LayerId(n, PostAttnNorm), LayerId(n, Mlp)}
    ensures KnownIds(nodes, n + 1, encoderDecoder, {})
  {
    forall id | Emits(nodes, id) ensures HeadId(id, encoderDecoder) || FromLayers(id, n + 1) {
      if FromLayers(id, n) {
        var i, part :| 0 <= i < n && id == LayerId(i, part);
        assert 0 <= i < n + 1;
      }
      if id in extra {
        var part :| id == LayerId(n, part);
        assert 0 <= n < n + 1;
      }
    }
  }

  lemma {:induction false} LayerOrdered(nodes: seq<Node>, n: nat, rmsNorm: bool, encoderDecoder: bool)
    requires Ordered(nodes) && KnownIds(nodes, n, encoderDecoder, {})
    requires Emits(nodes, BlockOutput(n))
    ensures Ordered(nodes + Layer(n, rmsNorm))
    ensures KnownIds(nodes + Layer(n, rmsNorm), n + 1, encoderDecoder, {})
    ensures Emits(nodes + Layer(n, rmsNorm), BlockOutput(n + 1))
  {
    PartsDiffer(n);
    if rmsNorm { NormedLayerOrdered(nodes, n, encoderDecoder); } else { PlainLayerOrdered(nodes, n, encoderDecoder); }
    var all := {LayerId(n, InputNorm), LayerId(n, SelfAttn), LayerId(n, PostAttnNorm), LayerId(n, Mlp)};
    LayerIdsKnown(nodes + Layer(n, rmsNorm), n, encoderDecoder, all);
  }

  lemma {:induction false} NormedLayerOrdered(nodes: seq<Node>, n: nat, encoderDecoder: bool)
    requires Ordered(nodes) && KnownIds(nodes, n, encoderDecoder, {})
    requires Emits(nodes, BlockOutput(n))
    ensures Ordered(nodes + Layer(n, true)) && Emits(nodes + Layer(n, true), LayerId(n, Mlp))
    ensures KnownIds(nodes + Layer(n, true), n, encoderDecoder,
                     {LayerId(n, InputNorm), LayerId(n, SelfAttn), LayerId(n, PostAttnNorm), LayerId(n, Mlp)})
  {
    var first := NormedBlock(n, InputNorm, SelfAttn, AttentionBlock, BlockOutput(n));
    var second := NormedBlock(n, PostAttnNorm, Mlp, MlpBlock, LayerId(n, SelfAttn));
    BlocksOrdered(nodes, first, second, n, encoderDecoder);
    TwoBlocks(n);
    ConcatAssoc(nodes, first, second);
  }

  lemma {:induction false} BlocksOrdered(nodes: seq<Node>, first: seq<Node>, second: seq<Node>, n: nat, encoderDecoder: bool)
    requires first == NormedBlock(n, InputNorm, SelfAttn, AttentionBlock, BlockOutput(n))
    requires second == NormedBlock(n, PostAttnNorm, Mlp, MlpBlock, LayerId(n, SelfAttn))
    requires Ordered(nodes) && KnownIds(nodes, n, encoderDecoder, {})
    requires Emits(nodes, BlockOutput(n))
    ensures Ordered(nodes + first + second) && Emits(nodes + first + second, LayerId(n, Mlp))
    ensures KnownIds(nodes + first + second, n, encoderDecoder,
                     {LayerId(n, InputNorm), LayerId(n, SelfAttn), LayerId(n, PostAttnNorm), LayerId(n, Mlp)})
  {
    PartsDiffer(n);
    var extra := {} + {LayerId(n, InputNorm)} + {LayerId(n, SelfAttn)};
    BlockOrdered(nodes, n, encoderDecoder, {}, InputNorm, SelfAttn, AttentionBlock, BlockOutput(n));
    BlockOrdered(nodes + first, n, encoderDecoder, extra, PostAttnNorm, Mlp, MlpBlock, LayerId(n, SelfAttn));
  }

  lemma {:induction false} TwoBlocks(n: nat)
    ensures NormedBlock(n, InputNorm, SelfAttn, AttentionBlock, BlockOutput(n))
            + NormedBlock(n, PostAttnNorm, Mlp, MlpBlock, LayerId(n, SelfAttn)) == Layer(n, true)
  {
  }

  /** A norm and the block it feeds, with the norm's input as the residual. */
  function NormedBlock(n: nat, norm: Part, block: Part, op: OpType, input: string): seq<Node> {
    [Node(LayerId(n, norm), RmsNorm, [input]), Node(LayerId(n, block), op, [LayerId(n, norm), input])]
  }

  lemma {:induction false} BlockOrdered(nodes: seq<Node>, n: nat, encoderDecoder: bool, extra: set<string>,
                     norm: Part, block: Part, op: OpType, input: string)
    requires Ordered(nodes) && KnownIds(nodes, n, encoderDecoder, extra)
    requires LayerId(n, norm) !in extra && LayerId(n, block) !in extra + {LayerId(n, norm)}
    requires Emits(nodes, input)
    ensures Ordered(nodes + NormedBlock(n, norm, block, op, input))
    ensures KnownIds(nodes + NormedBlock(n, norm, block, op, input), n, encoderDecoder,
                     extra + {LayerId(n, norm)} + {LayerId(n, block)})
    ensures Emits(nodes + NormedBlock(n, norm, block, op, input), LayerId(n, block))
  {
    LayerStep(nodes, n, encoderDecoder, extra, norm, RmsNorm, [input]);
    var mid := nodes + [Node(LayerId(n, norm), RmsNorm, [input])];
    LayerStep(mid, n, encoderDecoder, extra + {LayerId(n, norm)}, block, op, [LayerId(n, norm), input]);
    assert mid + [Node(LayerId(n, block), op, [LayerId(n, norm), input])] == nodes + NormedBlock(n, norm, block, op, input);
  }

  lemma {:induction false} PlainLayerOrdered(nodes: seq<Node>, n: nat, encoderDecoder: bool)
    requires Ordered(nodes) && KnownIds(nodes, n, encoderDecoder, {})
    requires Emits(nodes, BlockOutput(n))
    ensures Ordered(nodes + Layer(n, false)) && Emits(nodes + Layer(n, false), LayerId(n, Mlp))
    ensures KnownIds(nodes + Layer(n, false), n, encoderDecoder,
                     {LayerId(n, InputNorm), LayerId(n, SelfAttn), LayerId(n, PostAttnNorm), LayerId(n, Mlp)})
  {
    PartsDiffer(n);
    var before, attn := BlockOutput(n), LayerId(n, SelfAttn);
    LayerStep(nodes, n, encoderDecoder, {}, SelfAttn, AttentionBlock, [before, before]);
    var n1 := nodes + [Node(attn, AttentionBlock, [before, before])];
    LayerStep(n1, n, encoderDecoder, {attn}, Mlp, MlpBlock, [attn, attn]);
    assert n1 + [Node(LayerId(n, Mlp), MlpBlock, [attn, attn])] == nodes + Layer(n, false);
  }

  lemma {:induction false} LayersOrdered(n: nat, rmsNorm: bool, encoderDecoder: bool)
    ensures Ordered(Head(encoderDecoder) + Layers(n, rmsNorm))
    ensures KnownIds(Head(encoderDecoder) + Layers(n, rmsNorm), n, encoderDecoder, {})
    ensures Emits(Head(encoderDecoder) + Layers(n, rmsNorm), BlockOutput(n))
  {
    if n == 0 {
      HeadOrdered(encoderDecoder);
      assert Head(encoderDecoder) + Layers(n, rmsNorm) == Head(encoderDecoder);
    } else {
      LayersOrdered(n - 1, rmsNorm, encoderDecoder);
      LayerOrdered(Head(encoderDecoder) + Layers(n - 1, rmsNorm), n - 1, rmsNorm, encoderDecoder);
      ConcatAssoc(Head(encoderDecoder), Layers(n - 1, rmsNorm), Layer(n - 1, rmsNorm));
    }
  }

  lemma {:induction false} FixedFresh(nodes: seq<Node>, n: nat, encoderDecoder: bool, extra: set<string>, id: string)
    requires KnownIds(nodes, n, encoderDecoder, extra)
    requires id in FIXED && !HeadId(id, encoderDecoder) && id !in extra
    ensures !Emits(nodes, id)
  {
    if FromLayers(id, n) {
      var i, part :| 0 <= i < n && id == LayerId(i, part);
      FixedIsNoLayer(id, i, part);
    }
  }

  lemma {:induction false} TailStep(nodes: seq<Node>, n: nat, encoderDecoder: bool, extra: set<string>, id: string, op: OpType, input: string)
    requires Ordered(nodes) && KnownIds(nodes, n, encoderDecoder, extra)
    requires id in FIXED && !HeadId(id, encoderDecoder) && id !in extra
    requires Emits(nodes, input)
    ensures Ordered(nodes + [Node(id, op, [input])])
    ensures KnownIds(nodes + [Node(id, op, [input])], n, encoderDecoder, extra + {id})
    ensures Emits(nodes + [Node(id, op, [input])], id)
  {
    FixedFresh(nodes, n, encoderDecoder, extra, id);
    OrderedAppend(nodes, Node(id, op, [input]));
  }

  /** For every layer count, norm kind and model class, ids are pairwise distinct and every
      input is the id of an earlier node. */
  lemma {:induction false} GraphOrdered(numLayers: nat, rmsNorm: bool, encoderDecoder: bool)
    ensures Ordered(Graph(numLayers, rmsNorm, encoderDecoder))
  {
    var body, last := Head(encoderDecoder) + Layers(numLayers, rmsNorm), BlockOutput(numLayers);
    LayersOrdered(numLayers, rmsNorm, encoderDecoder);
    if rmsNorm {
      TailStep(body, numLayers, encoderDecoder, {}, "final_norm", RmsNorm, last);
      var normed := body + [Node("final_norm", RmsNorm, [last])];
      LastNodesOrdered(normed, numLayers, encoderDecoder, {"final_norm"}, "final_norm");
      ConcatAssoc(body, [Node("final_norm", RmsNorm, [last])], LastNodes("final_norm"));
    } else {
      LastNodesOrdered(body, numLayers, encoderDecoder, {}, last);
      assert Tail(numLayers, rmsNorm) == LastNodes(last);
    }
  }

  function LastNodes(input: string): seq<Node> {
    [Node("hidden_state_last_token", Slice, [input]),
     Node("lm_head", Linear, ["hidden_state_last_token"]),
     Node("output", Output, ["lm_head"])]
  }

  lemma {:induction false} LastNodesOrdered(nodes: seq<Node>, n: nat, encoderDecoder: bool, extra: set<string>, input: string)
    requires Ordered(nodes) && KnownIds(nodes, n, encoderDecoder, extra) && Emits(nodes, input)
    requires extra <= {"final_norm"}
    ensures Ordered(nodes + LastNodes(input))
  {
    TailStep(nodes, n, encoderDecoder, extra, "hidden_state_last_token", Slice, input);
    var n1 := nodes + [Node("hidden_state_last_token", Slice, [input])];
    TailStep(n1, n, encoderDecoder, extra + {"hidden_state_last_token"}, "lm_head", Linear, "hidden_state_last_token");
    var n2 := n1 + [Node("lm_head", Linear, ["hidden_state_last_token"])];
    TailStep(n2, n, encoderDecoder, extra + {"hidden_state_last_token"} + {"lm_head"}, "output", Output, "lm_head");
    assert n2 + [Node("output", Output, ["lm_head"])] == nodes + LastNodes(input);
  }

  // ----- the checker accepts every generated graph

  function AsOps(nodes: seq<Node>): (ops: seq<SsaChecker.Op>)
    ensures |ops| == |nodes|
  {
    seq(|nodes|, i requires 0 <= i < |nodes| => SsaChecker.Op(Some(nodes[i].id), nodes[i].inputs))
  }

  lemma {:induction false} OrderedIsClean(nodes: seq<Node>)
    requires Ordered(nodes)
    ensures SsaChecker.StrictlyClean(AsOps(nodes), {}) && SsaChecker.Clean(AsOps(nodes), {})
  {
    var ops := AsOps(nodes);
    forall k, id | 0 <= k < |ops| && id in ops[k].inputs
      ensures SsaChecker.Defines(ops[..k], id) && SsaChecker.Defines(ops[..k + 1], id)
    {
      assert Emits(nodes[..k], id);
      var j :| 0 <= j < k && nodes[..k][j].id == id;
      assert ops[..k][j].outputName == Some(id) && ops[..k + 1][j].outputName == Some(id);
    }
  }

  /** The generator always passes the checker. */
  method CheckFallbackGraph(numLayers: nat, rmsNorm: bool, encoderDecoder: bool)
      returns (nodes: seq<Node>, issues: seq<SsaChecker.Issue>)
    ensures nodes == Graph(numLayers, rmsNorm, encoderDecoder)
    ensures issues == []
  {
    nodes := BuildFallbackGraph(numLayers, rmsNorm, encoderDecoder);
    GraphOrdered(numLayers, rmsNorm, encoderDecoder);
    OrderedIsClean(nodes);
    issues := SsaChecker.PreEmitVerification(AsOps(nodes), {});
  }
}
