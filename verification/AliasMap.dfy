/** Names left over from an earlier decomposition, and the nodes they stand for
    (`build_input_alias_map` in `mir_to_compat.rs`). */
module AliasMap {
  import opened Wrappers
  import opened Strings
  import opened Mir

  /** The substrings that tell the projections of an architecture apart. */
  datatype Architecture = Architecture(qProj: string, kProj: string, vProj: string, upProj: string)

  const EMBED_ALIAS: string := "embed_weight_embed_tokens"
  const EMBED_WEIGHT: string := "model.embed_tokens.weight"
  const LAYER: string := "_layer_"

  datatype AliasKind = SplitQ | SplitK | SplitV | UpProj | MlpAct | AttnQk | AttnSoftmax | AttnOut

  function Prefix(kind: AliasKind): string {
    match kind
    case SplitQ => "sir_qkv_split_q"
    case SplitK => "sir_qkv_split_k"
    case SplitV => "sir_qkv_split_v"
    case UpProj => "sir_up_proj"
    case MlpAct => "sir_mlp_act"
    case AttnQk => "sir_attn_qk"
    case AttnSoftmax => "sir_attn_softmax"
    case AttnOut => "sir_attn_out"
  }

  function AliasSuffix(kind: AliasKind): string {
    if kind.UpProj? || kind.MlpAct? then "mlp" else "self_attn"
  }

  /** The alias of a layer's node: `<prefix>_layer_<n>_<suffix>`. */
  function AliasName(kind: AliasKind, layer: nat): string {
    Prefix(kind) + LAYER + Decimal(layer) + "_" + AliasSuffix(kind)
  }

  function LayerIndexFromWeight(weight: string): Option<nat> {
    match StripPrefix(weight, "model.layers.")
    case None => None
    case Some(rest) => ParseUsize(UpTo(rest, '.'))
  }

  /** `split("_layer_").next()`: everything before the next marker. */
  function BeforeMarker(rest: string): string {
    match Find(rest, LAYER, 0) case Some(next) => rest[..next] case None => rest
  }

  /** The number after the first `_layer_`, cut at the next `_layer_` and then at `_`. */
  function LayerIndexFromNodeId(id: string): Option<nat> {
    match Find(id, LAYER, 0)
    case None => None
    case Some(at) => ParseUsize(UpTo(BeforeMarker(id[at + |LAYER|..]), '_'))
  }

  /** The alias rule that applies to a node, if any. */
  function KindOf(node: MirNode, arch: Architecture): Option<AliasKind> {
    match node.op
    case Linear(_, _, weight, _) =>
      if Contains(weight, arch.qProj) && !Contains(weight, arch.kProj) then Some(SplitQ)
      else if Contains(weight, arch.kProj) && !Contains(weight, arch.vProj) then Some(SplitK)
      else if Contains(weight, arch.vProj) then Some(SplitV)
      else if Contains(weight, arch.upProj) then Some(UpProj)
      else None
    case Unary(Silu, name, _) => if name == "mlp_silu" then Some(MlpAct) else None
    case Unary(Softmax, name, _) => if name == "attn_softmax" then Some(AttnSoftmax) else None
    case MatMul(name, _, _, _) =>
      if name == "attn_qk" then Some(AttnQk) else if name == "attn_sv" then Some(AttnOut) else None
    case _ => None
  }

  function AliasKey(node: MirNode, arch: Architecture): Option<string> {
    match KindOf(node, arch)
    case None => None
    case Some(kind) =>
      match if node.op.Linear? then LayerIndexFromWeight(node.op.weight) else LayerIndexFromNodeId(node.id)
      case None => None
      case Some(layer) => Some(AliasName(kind, layer))
  }

  type KeyRule = MirNode -> Option<string>

  function Rule(arch: Architecture): KeyRule { node => AliasKey(node, arch) }

  /** Later nodes overwrite earlier ones under the same key. */
  function Aliases(nodes: seq<MirNode>, rule: KeyRule): map<string, string> {
    if nodes == [] then map[EMBED_ALIAS := EMBED_WEIGHT]
    else
      var node := nodes[|nodes| - 1];
      match rule(node)
      case None => Aliases(nodes[..|nodes| - 1], rule)
      case Some(key) => Aliases(nodes[..|nodes| - 1], rule)[key := node.id]
  }

  method BuildInputAliasMap(nodes: seq<MirNode>, arch: Architecture) returns (aliases: map<string, string>)
    ensures aliases == Aliases(nodes, Rule(arch))
  {
    aliases := map[EMBED_ALIAS := EMBED_WEIGHT];
    for i := 0 to |nodes|
      invariant aliases == Aliases(nodes[..i], Rule(arch))
    {
      assert nodes[..i + 1][..i] == nodes[..i];
      match AliasKey(nodes[i], arch) {
        case Some(key) => aliases := aliases[key := nodes[i].id];
        case None =>
      }
    }
    assert nodes[..|nodes|] == nodes;
  }

  // ----- names

  lemma {:induction false} UpToPiece(piece: string, tail: string, c: char)
    requires tail == "" || tail[0] == c
    ensures UpTo(piece + tail, c) == UpTo(piece, c)
  {
    if piece == "" {
      assert piece + tail == tail;
    } else if piece[0] != c {
      assert (piece + tail)[1..] == piece[1..] + tail;
      UpToPiece(piece[1..], tail, c);
    }
  }

  /** The first marker stays the first whatever follows it. */
  lemma {:induction false} NoMarkerBefore(prefix: string, tail: string)
    requires Find(prefix + LAYER, LAYER, 0) == Some(|prefix|)
    ensures Find(prefix + LAYER + tail, LAYER, 0) == Some(|prefix|)
  {
    var head := prefix + LAYER;
    var s := head + tail;
    assert OccursAt(s, LAYER, |prefix|) by { assert s[|prefix|..|prefix| + 7] == LAYER; }
    forall j | 0 <= j < |prefix| ensures !OccursAt(s, LAYER, j) {
      assert !OccursAt(head, LAYER, j);
      assert s[j..j + 7] == head[j..j + 7];
    }
  }

  /** Cutting at a marker first does not change what precedes the first underscore. */
  lemma {:induction false} MarkerStartsWithUnderscore(rest: string)
    ensures UpTo(BeforeMarker(rest), '_') == UpTo(rest, '_')
  {
    match Find(rest, LAYER, 0) {
      case None =>
      case Some(next) =>
        assert rest == rest[..next] + rest[next..];
        assert rest[next] == rest[next..next + 7][0];
        UpToPiece(rest[..next], rest[next..], '_');
    }
  }

  /** Any id `<prefix>_layer_<n>_<suffix>` gives back its layer number, whatever the suffix, if
      that marker is the first. */
  lemma {:induction false} LayerIndexRecovered(prefix: string, n: nat, suffix: string)
    requires n <= USIZE_MAX
    requires Find(prefix + LAYER, LAYER, 0) == Some(|prefix|)
    ensures LayerIndexFromNodeId(prefix + LAYER + Decimal(n) + "_" + suffix) == Some(n)
  {
    NumberAfterMarker(prefix, Decimal(n) + ("_" + suffix));
    JoinAssoc(prefix + LAYER + Decimal(n), "_", suffix);
    JoinAssoc(prefix + LAYER, Decimal(n), "_" + suffix);
    UpToStops(Decimal(n), '_', "_" + suffix);
    ParseDecimal(n);
  }

  lemma {:induction false} NumberAfterMarker(prefix: string, tail: string)
    requires Find(prefix + LAYER, LAYER, 0) == Some(|prefix|)
    ensures LayerIndexFromNodeId(prefix + LAYER + tail) == ParseUsize(UpTo(tail, '_'))
  {
    NoMarkerBefore(prefix, tail);
    assert (prefix + LAYER + tail)[|prefix| + |LAYER|..] == tail;
    MarkerStartsWithUnderscore(tail);
  }

  lemma {:induction false} NoUnderscoreBeforeL(prefix: string)
    requires forall j | 0 <= j < |prefix| && prefix[j] == '_' :: (prefix + LAYER)[j + 1] != 'l'
    ensures Find(prefix + LAYER, LAYER, 0) == Some(|prefix|)
  {
    var s := prefix + LAYER;
    assert OccursAt(s, LAYER, |prefix|) by { assert s[|prefix|..|prefix| + 7] == LAYER; }
    forall j | 0 <= j < |prefix| ensures !OccursAt(s, LAYER, j) {
      assert s[j..j + 7][0] == s[j] == prefix[j] && s[j..j + 7][1] == s[j + 1];
    }
  }

  lemma {:induction false} PrefixHasNoMarker(kind: AliasKind)
    ensures Find(Prefix(kind) + LAYER, LAYER, 0) == Some(|Prefix(kind)|)
  {
    PrefixUnderscores(kind);
    NoUnderscoreBeforeL(Prefix(kind));
  }

  lemma {:induction false} PrefixUnderscores(kind: AliasKind)
    ensures forall j | 0 <= j < |Prefix(kind)| && Prefix(kind)[j] == '_' :: (Prefix(kind) + LAYER)[j + 1] != 'l'
  {
  }

  /** Every generated alias gives back its layer. */
  lemma {:induction false} AliasLayer(kind: AliasKind, n: nat)
    requires n <= USIZE_MAX
    ensures LayerIndexFromNodeId(AliasName(kind, n)) == Some(n)
  {
    PrefixHasNoMarker(kind);
    LayerIndexRecovered(Prefix(kind), n, AliasSuffix(kind));
  }

  /** Distinct rules or layers never share an alias. */
  lemma {:induction false} AliasNameInjective(a: AliasKind, m: nat, b: AliasKind, n: nat)
    requires m <= USIZE_MAX && n <= USIZE_MAX
    requires AliasName(a, m) == AliasName(b, n)
    ensures a == b && m == n
  {
    AliasLayer(a, m);
    AliasLayer(b, n);
    AliasPrefix(a, m);
    AliasPrefix(b, n);
    PrefixInjective(a, b);
  }

  /** The prefix of an alias is what precedes its first marker. */
  lemma {:induction false} AliasPrefix(kind: AliasKind, n: nat)
    ensures var at := Find(AliasName(kind, n), LAYER, 0);
            at.Some? && at.value <= |AliasName(kind, n)| && AliasName(kind, n)[..at.value] == Prefix(kind)
  {
    PrefixHasNoMarker(kind);
    var tail := Decimal(n) + ("_" + AliasSuffix(kind));
    assert AliasName(kind, n) == Prefix(kind) + LAYER + tail;
    NoMarkerBefore(Prefix(kind), tail);
  }

  lemma {:induction false} PrefixInjective(a: AliasKind, b: AliasKind)
    requires Prefix(a) == Prefix(b)
    ensures a == b
  {
  }

  // ----- what the map holds

  lemma {:induction false} AliasNameStarts(kind: AliasKind, n: nat)
    ensures AliasName(kind, n)[0] == 's' && AliasName(kind, n) != EMBED_ALIAS
  {
    assert Prefix(kind)[0] == 's' && EMBED_ALIAS[0] == 'e';
  }

  ghost predicate NeverEmbed(rule: KeyRule) { forall node :: rule(node) != Some(EMBED_ALIAS) }

  lemma {:induction false} RuleNeverEmbed(arch: Architecture)
    ensures NeverEmbed(Rule(arch))
  {
    forall node ensures AliasKey(node, arch) != Some(EMBED_ALIAS) { KeyNeverEmbed(node, arch); }
  }

  lemma {:induction false} KeyNeverEmbed(node: MirNode, arch: Architecture)
    ensures AliasKey(node, arch) != Some(EMBED_ALIAS)
  {
    if AliasKey(node, arch).Some? {
      var kind, layer :| AliasKey(node, arch) == Some(AliasName(kind, layer));
      AliasNameStarts(kind, layer);
    }
  }

  /** The position of the last node a key belongs to. */
  ghost predicate LastMatch(nodes: seq<MirNode>, rule: KeyRule, key: string, i: nat) {
    && i < |nodes| && rule(nodes[i]) == Some(key)
    && forall j | i < j < |nodes| :: rule(nodes[j]) != Some(key)
  }

  /** Besides the embedding weight, each key stands for the last node it belongs to. */
  lemma {:induction false} KeyIsLastMatch(nodes: seq<MirNode>, rule: KeyRule, key: string) returns (i: nat)
    requires key in Aliases(nodes, rule) && key != EMBED_ALIAS
    ensures LastMatch(nodes, rule, key, i) && Aliases(nodes, rule)[key] == nodes[i].id
  {
    var n := |nodes| - 1;
    if rule(nodes[n]) == Some(key) {
      i := n;
    } else {
      i := KeyIsLastMatch(nodes[..n], rule, key);
    }
  }

  lemma {:induction false} EmbedIsKept(nodes: seq<MirNode>, rule: KeyRule)
    requires NeverEmbed(rule)
    ensures EMBED_ALIAS in Aliases(nodes, rule) && Aliases(nodes, rule)[EMBED_ALIAS] == EMBED_WEIGHT
  {
    if nodes != [] { EmbedIsKept(nodes[..|nodes| - 1], rule); }
  }

  /** Every key that belongs to a node is in the map. */
  lemma {:induction false} MatchesAreKeys(nodes: seq<MirNode>, rule: KeyRule, i: nat)
    requires i < |nodes| && rule(nodes[i]).Some?
    ensures rule(nodes[i]).value in Aliases(nodes, rule)
  {
    var n := |nodes| - 1;
    if i < n { MatchesAreKeys(nodes[..n], rule, i); }
  }

  /** Every alias stands for a node or for the embedding weight. */
  lemma {:induction false} TargetIsNode(nodes: seq<MirNode>, rule: KeyRule, key: string)
    requires NeverEmbed(rule) && key in Aliases(nodes, rule)
    ensures key == EMBED_ALIAS ==> Aliases(nodes, rule)[key] == EMBED_WEIGHT
    ensures key != EMBED_ALIAS ==> exists n :: n in nodes && n.id == Aliases(nodes, rule)[key] && rule(n) == Some(key)
  {
    EmbedIsKept(nodes, rule);
    if key != EMBED_ALIAS {
      var i := KeyIsLastMatch(nodes, rule, key);
      assert nodes[i] in nodes;
    }
  }

  /** No two aliases stand for the same node; in particular the query, key and value aliases
      never share a projection. */
  lemma {:induction false} AliasesInjective(nodes: seq<MirNode>, arch: Architecture)
    requires UniqueIds(nodes)
    requires forall n | n in nodes :: n.id != EMBED_WEIGHT
    ensures var aliases := Aliases(nodes, Rule(arch));
            forall a, b | a in aliases && b in aliases && aliases[a] == aliases[b] :: a == b
  {
    var aliases := Aliases(nodes, Rule(arch));
    RuleNeverEmbed(arch);
    forall a, b | a in aliases && b in aliases && aliases[a] == aliases[b] ensures a == b {
      SameTargetSameAlias(nodes, Rule(arch), a, b);
    }
  }

  lemma {:induction false} SameTargetSameAlias(nodes: seq<MirNode>, rule: KeyRule, a: string, b: string)
    requires UniqueIds(nodes) && NeverEmbed(rule)
    requires forall n | n in nodes :: n.id != EMBED_WEIGHT
    requires a in Aliases(nodes, rule) && b in Aliases(nodes, rule) && Aliases(nodes, rule)[a] == Aliases(nodes, rule)[b]
    ensures a == b
  {
    TargetIsNode(nodes, rule, a);
    TargetIsNode(nodes, rule, b);
    if a != EMBED_ALIAS && b != EMBED_ALIAS {
      var i := KeyIsLastMatch(nodes, rule, a);
      var j := KeyIsLastMatch(nodes, rule, b);
      assert nodes[i].id == nodes[j].id;
    }
  }
}
