/** What every node of a fallback graph reads, found by its id. */
module FallbackWiring {
  import opened Strings
  import opened FallbackGraph

  /** The one node of this id has this operation and these inputs. */
  ghost predicate Found(nodes: seq<Node>, id: string, op: OpType, inputs: seq<string>) {
    Node(id, op, inputs) in nodes && forall n | n in nodes && n.id == id :: n == Node(id, op, inputs)
  }

  lemma {:induction false} FoundById(nodes: seq<Node>, node: Node)
    requires Ordered(nodes) && node in nodes
    ensures Found(nodes, node.id, node.op, node.inputs)
  {
    forall n | n in nodes && n.id == node.id ensures n == node {
      var i :| 0 <= i < |nodes| && nodes[i] == n;
      var j :| 0 <= j < |nodes| && nodes[j] == node;
      assert nodes[i].id == nodes[j].id;
    }
  }

  /** All nodes of a part of the graph are found by their ids. */
  lemma {:induction false} PartFound(numLayers: nat, rmsNorm: bool, encoderDecoder: bool, part: seq<Node>)
    requires forall node | node in part :: node in Graph(numLayers, rmsNorm, encoderDecoder)
    ensures forall node | node in part :: Found(Graph(numLayers, rmsNorm, encoderDecoder), node.id, node.op, node.inputs)
  {
    GraphOrdered(numLayers, rmsNorm, encoderDecoder);
    forall node | node in part ensures Found(Graph(numLayers, rmsNorm, encoderDecoder), node.id, node.op, node.inputs) {
      FoundById(Graph(numLayers, rmsNorm, encoderDecoder), node);
    }
  }

  /** The embedding reads the decoder's ids in an encoder-decoder model, else the model's. */
  lemma {:induction false} HeadWiring(numLayers: nat, rmsNorm: bool, encoderDecoder: bool)
    ensures var nodes := Graph(numLayers, rmsNorm, encoderDecoder);
      if encoderDecoder then
        && Found(nodes, "encoder_hidden_states", Placeholder, [])
        && Found(nodes, "decoder_input_ids", Placeholder, [])
        && Found(nodes, "embed_tokens", Embedding, ["decoder_input_ids"])
      else
        && Found(nodes, "input_ids", Placeholder, [])
        && Found(nodes, "embed_tokens", Embedding, ["input_ids"])
  {
    var head := Head(encoderDecoder);
    PartFound(numLayers, rmsNorm, encoderDecoder, head);
    assert head[0] in head && head[1] in head;
    if encoderDecoder { assert head[2] in head; }
  }

  /** What enters layer `i`. */
  ghost function Entering(i: nat): string { if i == 0 then "embed_tokens" else "layer_" + Decimal(i - 1) + "_mlp" }

  /** Each block of a layer reads the normed stream, if there are norms, and as its residual what
      entered before the norm: the layer's input for the attention, the attention for the mlp. */
  lemma {:induction false} LayerWiring(numLayers: nat, rmsNorm: bool, encoderDecoder: bool, i: nat)
    requires i < numLayers
    ensures var nodes, layer := Graph(numLayers, rmsNorm, encoderDecoder), "layer_" + Decimal(i);
      if rmsNorm then
        && Found(nodes, layer + "_input_norm", RmsNorm, [Entering(i)])
        && Found(nodes, layer + "_self_attn", AttentionBlock, [layer + "_input_norm", Entering(i)])
        && Found(nodes, layer + "_post_attn_norm", RmsNorm, [layer + "_self_attn"])
        && Found(nodes, layer + "_mlp", MlpBlock, [layer + "_post_attn_norm", layer + "_self_attn"])
      else
        && Found(nodes, layer + "_self_attn", AttentionBlock, [Entering(i), Entering(i)])
        && Found(nodes, layer + "_mlp", MlpBlock, [layer + "_self_attn", layer + "_self_attn"])
  {
    var part := Layer(i, rmsNorm);
    LayerIsPart(numLayers, rmsNorm, encoderDecoder, i);
    PartFound(numLayers, rmsNorm, encoderDecoder, part);
    assert BlockOutput(i) == Entering(i);
    assert part[0] in part && part[1] in part;
    if rmsNorm { assert part[2] in part && part[3] in part; }
  }

  lemma {:induction false} LayerIsPart(numLayers: nat, rmsNorm: bool, encoderDecoder: bool, i: nat)
    requires i < numLayers
    ensures forall node | node in Layer(i, rmsNorm) :: node in Graph(numLayers, rmsNorm, encoderDecoder)
  {
    var w, layers := if rmsNorm then 4 else 2, Layers(numLayers, rmsNorm);
    LayerAt(numLayers, rmsNorm, i);
    forall node | node in Layer(i, rmsNorm) ensures node in layers { assert node in layers[i * w..i * w + w]; }
  }

  /** The head reads the last token of the normed output of the last layer. */
  lemma {:induction false} TailWiring(numLayers: nat, rmsNorm: bool, encoderDecoder: bool)
    ensures var nodes := Graph(numLayers, rmsNorm, encoderDecoder);
      && (rmsNorm ==> Found(nodes, "final_norm", RmsNorm, [Entering(numLayers)]))
      && Found(nodes, "hidden_state_last_token", Slice, [if rmsNorm then "final_norm" else Entering(numLayers)])
      && Found(nodes, "lm_head", Linear, ["hidden_state_last_token"])
      && Found(nodes, "output", Output, ["lm_head"])
  {
    var tail := Tail(numLayers, rmsNorm);
    PartFound(numLayers, rmsNorm, encoderDecoder, tail);
    assert BlockOutput(numLayers) == Entering(numLayers);
    assert tail[0] in tail && tail[1] in tail && tail[2] in tail;
    if rmsNorm { assert tail[3] in tail; }
  }
}
