/** Which node each alias stands for, with the alias and the rule written out. */
module AliasKeys {
  import opened Wrappers
  import opened Strings
  import opened Mir
  import opened AliasMap

  ghost predicate Has(s: string, pat: string) { exists i: nat :: OccursAt(s, pat, i) }

  lemma {:induction false} ContainsIff(s: string, pat: string)
    ensures Contains(s, pat) <==> Has(s, pat)
  {
  }

  // ----- numbers in names

  /** A decimal number as `usize` reads it: a plus sign and leading zeros are let pass. */
  ghost predicate ReadAs(digits: string, plus: string, zeros: nat, n: nat) {
    (plus == "" || plus == "+") && digits == plus + ZeroDigits(zeros) + Decimal(n)
  }

  ghost predicate Number(digits: string, n: nat) {
    n < 0x1_0000_0000_0000_0000 && exists plus, zeros :: ReadAs(digits, plus, zeros, n)
  }

  lemma {:induction false} ParseIff(digits: string, n: nat)
    ensures ParseUsize(digits) == Some(n) <==> Number(digits, n)
  {
    if ParseUsize(digits) == Some(n) {
      var signed := digits != "" && digits[0] == '+';
      var body := if signed then digits[1..] else digits;
      var k := LeadingZeros(body);
      var plus := if signed then "+" else "";
      assert digits == plus + body;
      JoinAssoc(plus, ZeroDigits(k), Decimal(n));
      assert ReadAs(digits, plus, k, n);
    } else if Number(digits, n) {
      var plus, zeros :| ReadAs(digits, plus, zeros, n);
      JoinAssoc(plus, ZeroDigits(zeros), Decimal(n));
      ReadsBody(plus, zeros, n);
    }
  }

  lemma {:induction false} ReadsBody(plus: string, zeros: nat, n: nat)
    requires (plus == "" || plus == "+") && n < 0x1_0000_0000_0000_0000
    ensures ParseUsize(plus + (ZeroDigits(zeros) + Decimal(n))) == Some(n)
  {
    var body := ZeroDigits(zeros) + Decimal(n);
    ZerosValue(zeros, n);
    assert IsDigit(body[0]);
    if plus == "+" { assert (plus + body)[1..] == body; } else { assert plus + body == body; }
  }

  lemma {:induction false} ZerosValue(zeros: nat, n: nat)
    ensures AllDigits(ZeroDigits(zeros) + Decimal(n))
    ensures DigitsValue(ZeroDigits(zeros) + Decimal(n)) == n
    decreases n, zeros
  {
    var s, d := ZeroDigits(zeros) + Decimal(n), Decimal(n);
    var init := s[..|s| - 1];
    DecimalValue(n);
    if n >= 10 {
      ZerosValue(zeros, n / 10);
      assert init == ZeroDigits(zeros) + Decimal(n / 10);
    } else {
      assert init == ZeroDigits(zeros);
      ZerosAreZero(zeros);
    }
  }

  lemma {:induction false} ZerosAreZero(zeros: nat)
    ensures DigitsValue(ZeroDigits(zeros)) == 0
  {
    if zeros > 0 {
      ZerosAreZero(zeros - 1);
      assert ZeroDigits(zeros)[..zeros - 1] == ZeroDigits(zeros - 1);
    }
  }

  /** What precedes the first `c`. */
  ghost predicate Piece(s: string, c: char, piece: string) {
    c !in piece && (s == piece || piece + [c] <= s)
  }

  lemma {:induction false} UpToIff(s: string, c: char, piece: string)
    ensures UpTo(s, c) == piece <==> Piece(s, c, piece)
  {
    UpToIsPiece(s, c);
    if Piece(s, c, piece) {
      var tail := s[|piece|..];
      assert s == piece + tail && (tail == "" || tail[0] == c) by { if s != piece { assert s[|piece|] == (piece + [c])[|piece|]; } }
      UpToStops(piece, c, tail);
    }
  }

  lemma {:induction false} UpToIsPiece(s: string, c: char)
    ensures Piece(s, c, UpTo(s, c))
  {
    if s != "" && s[0] != c {
      UpToIsPiece(s[1..], c);
      var rest := UpTo(s[1..], c);
      assert s == [s[0]] + s[1..];
      if s[1..] != rest { JoinAssoc([s[0]], rest, [c]); assert rest + [c] <= s[1..]; }
    }
  }

  /** A weight `model.layers.<n>`, with nothing or a dot after the number. */
  ghost predicate LayerOfWeight(weight: string, n: nat) {
    exists digits :: Number(digits, n) && "model.layers." <= weight && Piece(weight[13..], '.', digits)
  }

  lemma {:induction false} WeightIff(weight: string, n: nat)
    ensures LayerIndexFromWeight(weight) == Some(n) <==> LayerOfWeight(weight, n)
  {
    if "model.layers." <= weight {
      var rest := weight[13..];
      UpToIff(rest, '.', UpTo(rest, '.'));
      ParseIff(UpTo(rest, '.'), n);
      if digits :| Number(digits, n) && Piece(rest, '.', digits) { UpToIff(rest, '.', digits); }
    }
  }

  /** An id whose first `_layer_` is at `at` and followed by this number, with nothing or an
      underscore after it. */
  ghost predicate NumberAt(id: string, at: nat, digits: string) {
    && OccursAt(id, "_layer_", at) && (forall j | 0 <= j < at :: !OccursAt(id, "_layer_", j))
    && Piece(id[at + 7..], '_', digits)
  }

  ghost predicate LayerOfId(id: string, n: nat) { exists at, digits :: NumberAt(id, at, digits) && Number(digits, n) }

  lemma {:induction false} IdIff(id: string, n: nat)
    ensures LayerIndexFromNodeId(id) == Some(n) <==> LayerOfId(id, n)
  {
    if at, digits :| NumberAt(id, at, digits) {
      NumberRead(id, at, digits);
      forall d | NumberAt(id, at, d) ensures d == digits {
        UpToIff(id[at + 7..], '_', d);
        UpToIff(id[at + 7..], '_', digits);
      }
      ParseIff(digits, n);
    } else if Find(id, LAYER, 0).Some? {
      var at := Find(id, LAYER, 0).value;
      UpToIff(id[at + 7..], '_', UpTo(id[at + 7..], '_'));
      assert NumberAt(id, at, UpTo(id[at + 7..], '_'));
    }
  }

  lemma {:induction false} NumberRead(id: string, at: nat, digits: string)
    requires NumberAt(id, at, digits)
    ensures LayerIndexFromNodeId(id) == ParseUsize(digits)
    ensures forall i, d | NumberAt(id, i, d) :: i == at
  {
    assert Find(id, LAYER, 0) == Some(at);
    MarkerStartsWithUnderscore(id[at + 7..]);
    UpToIff(id[at + 7..], '_', digits);
  }

  // ----- the nodes of each rule

  /** A projection of layer `n`, by its weight. */
  ghost predicate Projection(node: MirNode, n: nat) { node.op.Linear? && LayerOfWeight(node.op.weight, n) }

  ghost predicate IsQuery(node: MirNode, arch: Architecture, n: nat) {
    Projection(node, n) && Has(node.op.weight, arch.qProj) && !Has(node.op.weight, arch.kProj)
  }

  ghost predicate IsKey(node: MirNode, arch: Architecture, n: nat) {
    Projection(node, n) && Has(node.op.weight, arch.kProj) && !Has(node.op.weight, arch.vProj)
  }

  /** A weight that has the query's pattern too must have the key's, or it counts as a query. */
  ghost predicate IsValue(node: MirNode, arch: Architecture, n: nat) {
    && Projection(node, n) && Has(node.op.weight, arch.vProj)
    && (Has(node.op.weight, arch.qProj) ==> Has(node.op.weight, arch.kProj))
  }

  ghost predicate IsUp(node: MirNode, arch: Architecture, n: nat) {
    && Projection(node, n) && Has(node.op.weight, arch.upProj)
    && !Has(node.op.weight, arch.qProj) && !Has(node.op.weight, arch.kProj) && !Has(node.op.weight, arch.vProj)
  }

  ghost predicate IsActivation(node: MirNode, n: nat) {
    node.op.Unary? && node.op.kind == Silu && node.op.name == "mlp_silu" && LayerOfId(node.id, n)
  }

  ghost predicate IsScores(node: MirNode, n: nat) { node.op.MatMul? && node.op.name == "attn_qk" && LayerOfId(node.id, n) }

  ghost predicate IsSoftmax(node: MirNode, n: nat) {
    node.op.Unary? && node.op.kind == Softmax && node.op.name == "attn_softmax" && LayerOfId(node.id, n)
  }

  ghost predicate IsAttention(node: MirNode, n: nat) { node.op.MatMul? && node.op.name == "attn_sv" && LayerOfId(node.id, n) }

  ghost predicate InLayer(kind: AliasKind, node: MirNode, arch: Architecture, n: nat) {
    match kind
    case SplitQ => IsQuery(node, arch, n)
    case SplitK => IsKey(node, arch, n)
    case SplitV => IsValue(node, arch, n)
    case UpProj => IsUp(node, arch, n)
    case MlpAct => IsActivation(node, n)
    case AttnQk => IsScores(node, n)
    case AttnSoftmax => IsSoftmax(node, n)
    case AttnOut => IsAttention(node, n)
  }

  ghost function NumberOf(node: MirNode): Option<nat> {
    if node.op.Linear? then LayerIndexFromWeight(node.op.weight) else LayerIndexFromNodeId(node.id)
  }

  lemma {:induction false} KindIff(kind: AliasKind, node: MirNode, arch: Architecture, n: nat)
    ensures KindOf(node, arch) == Some(kind) && NumberOf(node) == Some(n) <==> InLayer(kind, node, arch, n)
  {
    if node.op.Linear? { ProjectionIff(kind, node, arch, n); } else { StepIff(kind, node, arch, n); }
  }

  lemma {:induction false} ProjectionIff(kind: AliasKind, node: MirNode, arch: Architecture, n: nat)
    requires node.op.Linear?
    ensures KindOf(node, arch) == Some(kind) && NumberOf(node) == Some(n) <==> InLayer(kind, node, arch, n)
  {
    var weight := node.op.weight;
    WeightIff(weight, n);
    assert Contains(weight, arch.qProj) <==> Has(weight, arch.qProj) by { ContainsIff(weight, arch.qProj); }
    assert Contains(weight, arch.kProj) <==> Has(weight, arch.kProj) by { ContainsIff(weight, arch.kProj); }
    assert Contains(weight, arch.vProj) <==> Has(weight, arch.vProj) by { ContainsIff(weight, arch.vProj); }
    assert Contains(weight, arch.upProj) <==> Has(weight, arch.upProj) by { ContainsIff(weight, arch.upProj); }
  }

  lemma {:induction false} StepIff(kind: AliasKind, node: MirNode, arch: Architecture, n: nat)
    requires !node.op.Linear?
    ensures KindOf(node, arch) == Some(kind) && NumberOf(node) == Some(n) <==> InLayer(kind, node, arch, n)
  {
    IdIff(node.id, n);
    if node.op.Unary? {
      UnaryKindIff(kind, node, arch);
    } else {
      assert KindOf(node, arch) == Some(kind) <==> (node.op.MatMul? && (
        (kind == AttnQk && node.op.name == "attn_qk") || (kind == AttnOut && node.op.name == "attn_sv")));
    }
  }

  lemma {:induction false} UnaryKindIff(kind: AliasKind, node: MirNode, arch: Architecture)
    requires node.op.Unary?
    ensures KindOf(node, arch) == Some(kind) <==>
      || (kind == MlpAct && node.op.kind == Silu && node.op.name == "mlp_silu")
      || (kind == AttnSoftmax && node.op.kind == Softmax && node.op.name == "attn_softmax")
  {
  }

  /** A number too large to be read is not read back. */
  lemma {:induction false} NameDetermines(a: AliasKind, m: nat, b: AliasKind, n: nat)
    requires m <= USIZE_MAX && AliasName(a, m) == AliasName(b, n)
    ensures a == b && m == n
  {
    if n <= USIZE_MAX {
      AliasNameInjective(a, m, b, n);
    } else {
      AliasLayer(a, m);
      LargeIsUnread(b, n);
    }
  }

  lemma {:induction false} LargeIsUnread(kind: AliasKind, n: nat)
    requires n > USIZE_MAX
    ensures LayerIndexFromNodeId(AliasName(kind, n)) == None
  {
    var tail := Decimal(n) + ("_" + AliasSuffix(kind));
    PrefixHasNoMarker(kind);
    assert AliasName(kind, n) == Prefix(kind) + LAYER + tail;
    NumberAfterMarker(Prefix(kind), tail);
    UpToStops(Decimal(n), '_', "_" + AliasSuffix(kind));
    DecimalValue(n);
    assert IsDigit(Decimal(n)[0]);
  }

  lemma {:induction false} KeyIff(kind: AliasKind, node: MirNode, arch: Architecture, n: nat)
    ensures AliasKey(node, arch) == Some(AliasName(kind, n)) <==> InLayer(kind, node, arch, n)
  {
    KindIff(kind, node, arch, n);
    if AliasKey(node, arch) == Some(AliasName(kind, n)) {
      NameDetermines(KindOf(node, arch).value, NumberOf(node).value, kind, n);
    }
  }

  // ----- the map

  /** `i` is the last node of this kind. */
  ghost predicate Last(nodes: seq<MirNode>, matches: MirNode -> bool, i: nat) {
    i < |nodes| && matches(nodes[i]) && forall j | i < j < |nodes| :: !matches(nodes[j])
  }

  /** The key stands for the last node of this kind, and is no key if there is none. */
  ghost predicate StandsFor(aliases: map<string, string>, nodes: seq<MirNode>, key: string, matches: MirNode -> bool) {
    if key in aliases then exists i: nat :: Last(nodes, matches, i) && aliases[key] == nodes[i].id
    else forall i | 0 <= i < |nodes| :: !matches(nodes[i])
  }

  lemma {:induction false} KeyStandsFor(nodes: seq<MirNode>, arch: Architecture, kind: AliasKind, n: nat, matches: MirNode -> bool)
    requires forall node :: matches(node) <==> InLayer(kind, node, arch, n)
    ensures StandsFor(Aliases(nodes, Rule(arch)), nodes, AliasName(kind, n), matches)
  {
    var rule, key := Rule(arch), AliasName(kind, n);
    forall node ensures matches(node) <==> rule(node) == Some(key) { KeyIff(kind, node, arch, n); }
    AliasNameStarts(kind, n);
    if key in Aliases(nodes, rule) {
      var i := KeyIsLastMatch(nodes, rule, key);
      assert Last(nodes, matches, i);
    } else {
      forall i | 0 <= i < |nodes| ensures !matches(nodes[i]) {
        if matches(nodes[i]) { MatchesAreKeys(nodes, rule, i); }
      }
    }
  }

  /** The projections of a layer, each under its own alias. */
  lemma {:induction false} ProjectionAliases(nodes: seq<MirNode>, arch: Architecture, n: nat)
    ensures var aliases := Aliases(nodes, Rule(arch));
      && StandsFor(aliases, nodes, "sir_qkv_split_q_layer_" + Decimal(n) + "_self_attn", node => IsQuery(node, arch, n))
      && StandsFor(aliases, nodes, "sir_qkv_split_k_layer_" + Decimal(n) + "_self_attn", node => IsKey(node, arch, n))
      && StandsFor(aliases, nodes, "sir_qkv_split_v_layer_" + Decimal(n) + "_self_attn", node => IsValue(node, arch, n))
      && StandsFor(aliases, nodes, "sir_up_proj_layer_" + Decimal(n) + "_mlp", node => IsUp(node, arch, n))
  {
    KeyStandsFor(nodes, arch, SplitQ, n, node => IsQuery(node, arch, n));
    KeyStandsFor(nodes, arch, SplitK, n, node => IsKey(node, arch, n));
    KeyStandsFor(nodes, arch, SplitV, n, node => IsValue(node, arch, n));
    KeyStandsFor(nodes, arch, UpProj, n, node => IsUp(node, arch, n));
    ProjectionsWritten(n);
  }

  /** The two products of a layer's attention, each under its own alias. */
  lemma {:induction false} ProductAliases(nodes: seq<MirNode>, arch: Architecture, n: nat)
    ensures var aliases := Aliases(nodes, Rule(arch));
      && StandsFor(aliases, nodes, "sir_attn_qk_layer_" + Decimal(n) + "_self_attn", node => IsScores(node, n))
      && StandsFor(aliases, nodes, "sir_attn_out_layer_" + Decimal(n) + "_self_attn", node => IsAttention(node, n))
  {
    KeyStandsFor(nodes, arch, AttnQk, n, node => IsScores(node, n));
    KeyStandsFor(nodes, arch, AttnOut, n, node => IsAttention(node, n));
    StepsWritten(n);
  }

  /** The softmax of a layer's attention and the activation of its mlp. */
  lemma {:induction false} ActivationAliases(nodes: seq<MirNode>, arch: Architecture, n: nat)
    ensures var aliases := Aliases(nodes, Rule(arch));
      && StandsFor(aliases, nodes, "sir_attn_softmax_layer_" + Decimal(n) + "_self_attn", node => IsSoftmax(node, n))
      && StandsFor(aliases, nodes, "sir_mlp_act_layer_" + Decimal(n) + "_mlp", node => IsActivation(node, n))
  {
    KeyStandsFor(nodes, arch, AttnSoftmax, n, node => IsSoftmax(node, n));
    KeyStandsFor(nodes, arch, MlpAct, n, node => IsActivation(node, n));
    StepsWritten(n);
  }

  lemma {:induction false} StepsWritten(n: nat)
    ensures AliasName(MlpAct, n) == "sir_mlp_act_layer_" + Decimal(n) + "_mlp"
    ensures AliasName(AttnQk, n) == "sir_attn_qk_layer_" + Decimal(n) + "_self_attn"
    ensures AliasName(AttnSoftmax, n) == "sir_attn_softmax_layer_" + Decimal(n) + "_self_attn"
    ensures AliasName(AttnOut, n) == "sir_attn_out_layer_" + Decimal(n) + "_self_attn"
  {
    AliasJoined(MlpAct, n, "sir_mlp_act_layer_", "_mlp");
    AliasJoined(AttnQk, n, "sir_attn_qk_layer_", "_self_attn");
    AliasJoined(AttnSoftmax, n, "sir_attn_softmax_layer_", "_self_attn");
    AliasJoined(AttnOut, n, "sir_attn_out_layer_", "_self_attn");
  }

  lemma {:induction false} ProjectionsWritten(n: nat)
    ensures AliasName(SplitQ, n) == "sir_qkv_split_q_layer_" + Decimal(n) + "_self_attn"
    ensures AliasName(SplitK, n) == "sir_qkv_split_k_layer_" + Decimal(n) + "_self_attn"
    ensures AliasName(SplitV, n) == "sir_qkv_split_v_layer_" + Decimal(n) + "_self_attn"
    ensures AliasName(UpProj, n) == "sir_up_proj_layer_" + Decimal(n) + "_mlp"
  {
    AliasJoined(SplitQ, n, "sir_qkv_split_q_layer_", "_self_attn");
    AliasJoined(SplitK, n, "sir_qkv_split_k_layer_", "_self_attn");
    AliasJoined(SplitV, n, "sir_qkv_split_v_layer_", "_self_attn");
    AliasJoined(UpProj, n, "sir_up_proj_layer_", "_mlp");
  }

  lemma {:induction false} AliasJoined(kind: AliasKind, n: nat, front: string, back: string)
    requires Prefix(kind) + "_layer_" == front && "_" + AliasSuffix(kind) == back
    ensures AliasName(kind, n) == front + Decimal(n) + back
  {
    JoinAssoc(front + Decimal(n), "_", AliasSuffix(kind));
  }

  /** There are no other aliases but the one of the embedding weight. */
  lemma {:induction false} NoOtherAliases(nodes: seq<MirNode>, arch: Architecture, key: string)
    requires key in Aliases(nodes, Rule(arch)) && key != "embed_weight_embed_tokens"
    ensures exists kind, n :: key == AliasName(kind, n)
  {
    var i := KeyIsLastMatch(nodes, Rule(arch), key);
    var kind, n :| AliasKey(nodes[i], arch) == Some(AliasName(kind, n));
  }

  lemma {:induction false} EmbeddingAlias(nodes: seq<MirNode>, arch: Architecture)
    ensures var aliases, key := Aliases(nodes, Rule(arch)), "embed_weight_embed_tokens";
            key in aliases && aliases[key] == "model.embed_tokens.weight"
  {
    RuleNeverEmbed(arch);
    EmbedIsKept(nodes, Rule(arch));
  }
}
