/** Where the lowering departs from the meaning of the graph: exactly where, and on what. */
module Departures {
  import opened Wrappers
  import opened ShapeOps
  import opened Weights
  import opened Mir
  import opened ReshapeReading
  import opened ReshapeResolution
  import opened AliasMap
  import opened Compat
  import opened Lowering
  import opened Meaning

  // ----- operands

  /** What names stand for. */
  function Followed(nodes: seq<MirNode>, aliases: map<string, string>): Renaming { n => Follow(nodes, aliases, n) }

  /** An emitted operation reads what its node means to read exactly when none of it is shadowed. */
  lemma {:induction false} OperandsFollowed(graph: MirGraph, k: nat, resolver: Resolver, aliases: map<string, string>, ops: seq<CompatOp>)
    requires k < |graph.nodes|
    requires Converted(graph.nodes, resolver, DeclaredShapes(graph.nodes), Redirect(aliases), |graph.nodes|) == Ok(ops)
    ensures |ops| == |graph.nodes|
    ensures Operands(ops[k]) == MapSeq(Reads(graph.nodes[k]), Followed(graph.nodes, aliases))
            <==> forall n | n in Reads(graph.nodes[k]) :: Unshadowed(graph.nodes, aliases, n)
  {
    SameAction(graph, k, resolver, aliases, ops);
    MapsAlike(Reads(graph.nodes[k]), Redirect(aliases), Followed(graph.nodes, aliases));
    forall n ensures Redirect(aliases)(n) == Followed(graph.nodes, aliases)(n) <==> Unshadowed(graph.nodes, aliases, n) {
      RedirectFollows(graph.nodes, aliases, n);
    }
  }

  lemma {:induction false} MapsAlike(names: seq<string>, f: Renaming, g: Renaming)
    ensures MapSeq(names, f) == MapSeq(names, g) <==> forall n | n in names :: f(n) == g(n)
  {
    if MapSeq(names, f) == MapSeq(names, g) {
      forall n | n in names ensures f(n) == g(n) {
        var i :| 0 <= i < |names| && names[i] == n;
        assert MapSeq(names, f)[i] == MapSeq(names, g)[i];
      }
    }
  }

  // ----- values

  /** The interpretation that forgets nothing: a value is the computation that led to it. */
  datatype Term = Term(action: Action, operands: seq<Term>)

  function Build(action: Action, operands: seq<Term>): Term { Term(action, operands) }

  /** What is read by `n` once redirected, and what `n` stands for, are one computation. */
  ghost predicate Coincides(graph: MirGraph, n: string, resolver: Resolver, aliases: map<string, string>,
                            compat: map<string, Term>, env: map<string, Term>) {
    Fetch(Redirect(aliases)(n), compat, Build) == ValueOf(Follow(graph.nodes, aliases, n), env, resolver, Build)
  }

  lemma {:induction false} TermsTell(graph: MirGraph, k: nat, resolver: Resolver, aliases: map<string, string>, ops: seq<CompatOp>,
                                     compat: map<string, Term>, env: map<string, Term>)
    requires k < |graph.nodes|
    requires Converted(graph.nodes, resolver, DeclaredShapes(graph.nodes), Redirect(aliases), |graph.nodes|) == Ok(ops)
    ensures |ops| == |graph.nodes|
    ensures Build(OpAction(ops[k]), OpOperands(ops[k], compat, Build))
            == Build(NodeAction(graph.nodes, aliases, graph.nodes[k], resolver), NodeOperands(graph, k, resolver, aliases, env, Build))
            <==> && OpCarries(graph.nodes, aliases, graph.nodes[k], resolver) && StateKept(graph.nodes[k].op, Redirect(aliases))
                 && forall n | n in Reads(graph.nodes[k]) :: Coincides(graph, n, resolver, aliases, compat, env)
  {
    SameAction(graph, k, resolver, aliases, ops);
    OperandsTell(graph, k, resolver, aliases, ops[k], compat, env);
  }

  lemma {:induction false} OperandsTell(graph: MirGraph, k: nat, resolver: Resolver, aliases: map<string, string>, c: CompatOp,
                                        compat: map<string, Term>, env: map<string, Term>)
    requires k < |graph.nodes| && Operands(c) == MapSeq(Reads(graph.nodes[k]), Redirect(aliases))
    ensures OpOperands(c, compat, Build) == NodeOperands(graph, k, resolver, aliases, env, Build)
            <==> forall n | n in Reads(graph.nodes[k]) :: Coincides(graph, n, resolver, aliases, compat, env)
  {
    var read, left, right := Reads(graph.nodes[k]), OpOperands(c, compat, Build), NodeOperands(graph, k, resolver, aliases, env, Build);
    forall i | 0 <= i < |read| ensures left[i] == right[i] <==> Coincides(graph, read[i], resolver, aliases, compat, env) {
      assert Operands(c)[i] == Redirect(aliases)(read[i]);
    }
    if left == right {
      forall n | n in read ensures Coincides(graph, n, resolver, aliases, compat, env) {
        var i :| 0 <= i < |read| && read[i] == n;
        assert left[i] == right[i];
      }
    }
  }

  /** Node `k` has one value in both readings, right after it has been computed. */
  ghost predicate OwnValue(graph: MirGraph, k: nat, resolver: Resolver, aliases: map<string, string>, consts: seq<CompatOp>, ops: seq<CompatOp>)
    requires k < |graph.nodes| == |ops|
  {
    var id := graph.nodes[k].id;
    var compat, env := Execute(consts + ops[..k + 1], Build), EvalGraph(graph, resolver, aliases, Build, k + 1);
    id in compat && id in env && compat[id] == env[id]
  }

  lemma {:induction false} OwnValueIsStep(graph: MirGraph, k: nat, resolver: Resolver, aliases: map<string, string>,
                                          consts: seq<CompatOp>, ops: seq<CompatOp>)
    requires k < |graph.nodes| == |ops| && OutputName(ops[k]) == graph.nodes[k].id
    ensures var compat, env := Execute(consts + ops[..k], Build), EvalGraph(graph, resolver, aliases, Build, k);
            OwnValue(graph, k, resolver, aliases, consts, ops)
            <==> Build(OpAction(ops[k]), OpOperands(ops[k], compat, Build))
                 == Build(NodeAction(graph.nodes, aliases, graph.nodes[k], resolver), NodeOperands(graph, k, resolver, aliases, env, Build))
  {
    var compat, env := Execute(consts + ops[..k], Build), EvalGraph(graph, resolver, aliases, Build, k);
    var v := Build(OpAction(ops[k]), OpOperands(ops[k], compat, Build));
    var w := Build(NodeAction(graph.nodes, aliases, graph.nodes[k], resolver), NodeOperands(graph, k, resolver, aliases, env, Build));
    var id := graph.nodes[k].id;
    ExecuteOneMore(consts, ops, k + 1, Build);
    EvalOneMore(graph, k, resolver, aliases, Build);
    assert Execute(consts + ops[..k + 1], Build) == compat[id := v];
    assert EvalGraph(graph, resolver, aliases, Build, k + 1) == env[id := w];
    assert OwnValue(graph, k, resolver, aliases, consts, ops) <==> v == w;
  }

  /** After nodes that all carry over, the next one gets its own value exactly when its operation
      and its state carry over and whatever it reads of a shadowed or a later node is, by
      coincidence, one and the same computation. */
  lemma {:induction false} FirstDeparture(graph: MirGraph, k: nat, resolver: Resolver, aliases: map<string, string>, allowMissing: bool,
                                          names: seq<string>, consts: seq<CompatOp>, ops: seq<CompatOp>)
    requires k < |graph.nodes| == |ops| && WellFormed(graph, k, resolver, aliases) && AllResolved(names, resolver)
    requires Emitted(graph.nodes, resolver, Redirect(aliases), allowMissing, names, consts, ops)
    ensures var compat, env := Execute(consts + ops[..k], Build), EvalGraph(graph, resolver, aliases, Build, k);
            OwnValue(graph, k, resolver, aliases, consts, ops)
            <==> && OpCarries(graph.nodes, aliases, graph.nodes[k], resolver) && StateKept(graph.nodes[k].op, Redirect(aliases))
                 && forall n | n in Reads(graph.nodes[k])
                               && !(Unshadowed(graph.nodes, aliases, n) && ReadsBack(graph.nodes, k, aliases, n)) ::
                      Coincides(graph, n, resolver, aliases, compat, env)
  {
    var compat, env := Execute(consts + ops[..k], Build), EvalGraph(graph, resolver, aliases, Build, k);
    SameAction(graph, k, resolver, aliases, ops);
    OwnValueIsStep(graph, k, resolver, aliases, consts, ops);
    TermsTell(graph, k, resolver, aliases, ops, compat, env);
    Simulation(graph, k, resolver, aliases, allowMissing, names, consts, ops, Build);
    OthersCoincide(graph, k, resolver, aliases, names, ops, compat, env);
  }

  lemma {:induction false} OthersCoincide(graph: MirGraph, k: nat, resolver: Resolver, aliases: map<string, string>, names: seq<string>,
                                          ops: seq<CompatOp>, compat: map<string, Term>, env: map<string, Term>)
    requires k < |graph.nodes| == |ops|
    requires Converted(graph.nodes, resolver, DeclaredShapes(graph.nodes), Redirect(aliases), |graph.nodes|) == Ok(ops)
    requires SortedWanted(names, ops, NodeIds(graph.nodes), resolver)
    requires Simulates(NodeIds(graph.nodes[..k]), compat, env, names, resolver, Build)
    ensures forall n | n in Reads(graph.nodes[k]) && Unshadowed(graph.nodes, aliases, n) && ReadsBack(graph.nodes, k, aliases, n) ::
              Coincides(graph, n, resolver, aliases, compat, env)
  {
    SameAction(graph, k, resolver, aliases, ops);
    forall n | n in Reads(graph.nodes[k]) && Unshadowed(graph.nodes, aliases, n) && ReadsBack(graph.nodes, k, aliases, n)
      ensures Coincides(graph, n, resolver, aliases, compat, env)
    {
      ReadsRedirected(Reads(graph.nodes[k]), Redirect(aliases), n);
      SameValue(graph, k, resolver, aliases, names, ops, compat, env, Build, n);
    }
  }

  lemma {:induction false} ReadsRedirected(names: seq<string>, f: Renaming, n: string)
    requires n in names
    ensures f(n) in MapSeq(names, f)
  {
    var i :| 0 <= i < |names| && names[i] == n;
    assert MapSeq(names, f)[i] == f(n);
  }

  // ----- constants

  const TENSOR: WeightData := WeightData([0, 60, 0, 60, 0, 60, 0, 60], [4], Fp16)

  const RETAGGED: MirNode := MirNode("w", Const("w", "w", Fp32), [1, 2, 4], Fp32)

  /** A weight of 4 half-precision numbers put under a constant declared as 8 single-precision
      ones: its bytes are emitted under the dtype and the shape of the declaration. */
  lemma {:induction false} RetaggedConstCounterexample(resolver: Resolver)
    requires resolver("w") == Some(TENSOR)
    ensures ConvertNode(RETAGGED, resolver, map[]) == Ok(Constant("w", TENSOR.data, Fp32, [1, 2, 4]))
    ensures OpAction(ConvertNode(RETAGGED, resolver, map[]).value) == Literal(TENSOR.data, Fp32, [1, 2, 4])
    ensures NodeAction([RETAGGED], map[], RETAGGED, resolver) == Literal(TENSOR.data, Fp16, [4])
    ensures !OpCarries([RETAGGED], map[], RETAGGED, resolver)
  {
  }

  // ----- reshapes

  predicate Castable(s: Shape) { forall i | 0 <= i < |s| :: s[i] < 0x8000_0000 }

  predicate HasCount(s: Shape, input: Option<Shape>) { input.Some? ==> Product(s) == Product(input.value) }

  /** When what the strategies make of a target is its meaning: it is concrete; or a declared shape
      stands in for it that keeps its dimensions and the count; or the declared shape of its operand
      completes it to the shape that the declarations determine; or the node's shape fills its zeros,
      at odds with nothing. */
  ghost predicate StrategyCarries(target: Shape, declared: Shape, recorded: Option<Shape>, input: Option<Shape>) {
    if ZeroFree(target) then true
    else if UsableShape(declared, target) then Fills(declared, target) && HasCount(declared, input)
    else if recorded.Some? then
      var (x, batch) := (recorded.value, BatchSize(recorded.value));
      && Positive(x) && Completable(target, x, batch)
      && Agrees(Resolved(target, x, batch), declared) && Determined(Resolved(target, x, batch), target, declared, recorded)
    else
      var m := Merged(target, declared);
      |declared| == |target| && ZeroFree(m) && Fills(m, declared) && HasCount(m, input)
  }

  /** Where the cast changes nothing, the emitted target is the meaning exactly so. */
  lemma {:induction false} StrategyMeaning(op: MirOp, declared: Shape, shapes: map<string, Shape>, input: Option<Shape>)
    requires op.Reshape? && (op.x in shapes ==> input == Some(shapes[op.x]))
    requires Castable(ReshapeTarget(op, declared, shapes))
    ensures TargetCarries(op.target, declared, input, AsI32s(ReshapeTarget(op, declared, shapes)))
            <==> StrategyCarries(op.target, declared, if op.x in shapes then Some(shapes[op.x]) else None, input)
  {
    var target := ReshapeTarget(op, declared, shapes);
    CastIsExact(target);
    assert Unsigned(AsI32s(target)).Some?;
    assert Unsigned(AsI32s(target)).value == target;
    if !ZeroFree(op.target) {
      if UsableShape(declared, op.target) {
        ConcreteIsDetermined(Merged(op.target, declared));
      } else if op.x in shapes {
        ResolvedMeaning(op.target, declared, shapes[op.x]);
      } else if |declared| == |op.target| {
        assert target == Merged(op.target, declared);
        ConcreteIsDetermined(target);
      }
    }
  }

  lemma {:induction false} ConcreteIsDetermined(m: Shape)
    ensures ZeroFree(m) <==> Zeros(m) == []
  {
    ZerosAre(m);
    assert Zeros(m) != [] ==> Zeros(m)[0] in Zeros(m);
    if !ZeroFree(m) {
      var i :| 0 <= i < |m| && m[i] == 0;
      assert i in Zeros(m);
    }
  }

  lemma {:induction false} ResolvedMeaning(target: Shape, declared: Shape, x: Shape)
    requires !ZeroFree(target)
    ensures var r := Resolved(target, x, BatchSize(x));
            Fits(r, target, declared, Some(x)) <==> Positive(x) && Completable(target, x, BatchSize(x)) && Agrees(r, declared)
  {
    var r := Resolved(target, x, BatchSize(x));
    ResolutionKeepsTarget(target, x, BatchSize(x));
    ProductZero(x);
    ProductZero(r);
    if Positive(x) { ResolutionConservesElements(target, x, BatchSize(x)); }
  }

  /** A reshape carries over, where the cast changes nothing, exactly as its branch says. */
  lemma {:induction false} ReshapeCarries(nodes: seq<MirNode>, aliases: map<string, string>, node: MirNode, resolver: Resolver)
    requires node.op.Reshape? && Castable(ReshapeTarget(node.op, node.shape, DeclaredShapes(nodes)))
    ensures OpCarries(nodes, aliases, node, resolver) <==>
            StrategyCarries(node.op.target, node.shape, DeclaredShape(nodes, map[], node.op.x), DeclaredShape(nodes, aliases, node.op.x))
  {
    if node.op.x in DeclaredShapes(nodes) { DeclaredIsNode(nodes, node.op.x); }
    StrategyMeaning(node.op, node.shape, DeclaredShapes(nodes), DeclaredShape(nodes, aliases, node.op.x));
  }

  lemma {:induction false} DeclaredIsNode(nodes: seq<MirNode>, id: string)
    requires id in DeclaredShapes(nodes)
    ensures id in NodeIds(nodes)
  {
    var node := nodes[|nodes| - 1];
    if id != node.id || node.shape == [] {
      DeclaredIsNode(nodes[..|nodes| - 1], id);
      var n :| n in nodes[..|nodes| - 1] && n.id == id;
      assert n in nodes;
    }
  }

  // ----- attributes

  function Logarithm(id: string, x: string, epsilon: string): MirNode {
    MirNode(id, Unary(Listed("log", epsilon), "l", x), [], Fp16)
  }

  /** Logarithms with different epsilons mean different computations, but are emitted as one and
      the same operation. */
  lemma {:induction false} LogarithmCounterexample(id: string, x: string, a: string, b: string,
                                                   nodes: seq<MirNode>, aliases: map<string, string>, resolver: Resolver)
    ensures ConvertNode(Logarithm(id, x, a), resolver, DeclaredShapes(nodes)) == ConvertNode(Logarithm(id, x, b), resolver, DeclaredShapes(nodes))
    ensures NodeAction(nodes, aliases, Logarithm(id, x, a), resolver) == NodeAction(nodes, aliases, Logarithm(id, x, b), resolver)
            <==> a == b
  {
    assert Blank(Logarithm(id, x, a).op).kind.lost == a && Blank(Logarithm(id, x, b).op).kind.lost == b;
  }

  // ----- a node that bears the name of an alias

  const NOTHING: Resolver := _ => None

  const FILL: MirNode := MirNode(EMBED_ALIAS, Fill("f", [1]), [1], Fp16)

  const READER: MirNode := MirNode("y", Unary(Listed("exp", ""), "e", EMBED_ALIAS), [1], Fp16)

  const SHADOWING: MirGraph := MirGraph([FILL, READER], [], ["y"], map[])

  /** One for what comes from outside, zero for what is made inside, and otherwise passed on. */
  function Origin(action: Action, values: seq<nat>): nat {
    if values != [] then values[0] else if action.External? then 1 else 0
  }

  lemma {:induction false} NobodyAliased(node: MirNode, arch: Architecture)
    requires node == FILL || node == READER
    ensures Rule(arch)(node) == None
  {
  }

  lemma {:induction false} ShadowingAliases(arch: Architecture)
    ensures Aliases(SHADOWING.nodes, Rule(arch)) == map[EMBED_ALIAS := EMBED_WEIGHT]
  {
    NobodyAliased(FILL, arch);
    NobodyAliased(READER, arch);
    assert SHADOWING.nodes[..1] == [FILL];
    assert Aliases([FILL], Rule(arch)) == Aliases([], Rule(arch));
  }

  function ShadowingOps(): seq<CompatOp> {
    [Direct(Fill(EMBED_ALIAS, [1])), Direct(Unary(Listed("exp", ""), "y", EMBED_WEIGHT))]
  }

  lemma {:induction false} ShadowingConverted(shapes: map<string, Shape>, f: Renaming)
    requires f(EMBED_ALIAS) == EMBED_WEIGHT
    ensures ConvertNode(FILL, NOTHING, shapes).Ok? && RemapInputs(ConvertNode(FILL, NOTHING, shapes).value, f) == ShadowingOps()[0]
    ensures ConvertNode(READER, NOTHING, shapes).Ok? && RemapInputs(ConvertNode(READER, NOTHING, shapes).value, f) == ShadowingOps()[1]
  {
    assert ConvertNode(FILL, NOTHING, shapes) == Ok(Direct(Fill(EMBED_ALIAS, [1])));
    assert ConvertNode(READER, NOTHING, shapes) == Ok(Direct(Unary(Listed("exp", ""), "y", EMBED_ALIAS)));
  }

  lemma {:induction false} ConvertsNext(nodes: seq<MirNode>, resolver: Resolver, shapes: map<string, Shape>, f: Renaming, k: nat, ops: seq<CompatOp>)
    requires k < |nodes| && Converted(nodes, resolver, shapes, f, k) == Ok(ops) && ConvertNode(nodes[k], resolver, shapes).Ok?
    ensures Converted(nodes, resolver, shapes, f, k + 1) == Ok(ops + [RemapInputs(ConvertNode(nodes[k], resolver, shapes).value, f)])
  {
  }

  lemma {:induction false} ShadowingEmitted(arch: Architecture)
    ensures Emitted(SHADOWING.nodes, NOTHING, Redirect(Aliases(SHADOWING.nodes, Rule(arch))), false, [], [], ShadowingOps())
  {
    ShadowingAliases(arch);
    var nodes, f := SHADOWING.nodes, Redirect(Aliases(SHADOWING.nodes, Rule(arch)));
    var shapes := DeclaredShapes(nodes);
    assert Converted(nodes, NOTHING, shapes, f, 0) == Ok([]);
    ShadowingConverted(shapes, f);
    ConvertsNext(nodes, NOTHING, shapes, f, 0, []);
    assert [] + [ShadowingOps()[0]] == [ShadowingOps()[0]];
    ConvertsNext(nodes, NOTHING, shapes, f, 1, [ShadowingOps()[0]]);
    assert [ShadowingOps()[0]] + [ShadowingOps()[1]] == ShadowingOps();
    forall w ensures !Wanted(w, ShadowingOps(), ConstNames(ShadowingOps()), NodeIds(nodes), NOTHING) {}
  }

  /** A node that bears the name of an alias is passed over: its reader gets the node's own value
      in the graph, but whatever the alias stands for in the emitted operations. */
  lemma {:induction false} ShadowedAliasCounterexample(arch: Architecture)
    ensures Emitted(SHADOWING.nodes, NOTHING, Redirect(Aliases(SHADOWING.nodes, Rule(arch))), false, [], [], ShadowingOps())
    ensures var compat := Execute(ShadowingOps(), Origin);
            var values := EvalGraph(SHADOWING, NOTHING, Aliases(SHADOWING.nodes, Rule(arch)), Origin, 2);
            "y" in compat && "y" in values && compat["y"] == 1 && values["y"] == 0
  {
    ShadowingEmitted(arch);
    ShadowingExecuted();
    ShadowingEvaluated(Aliases(SHADOWING.nodes, Rule(arch)));
  }

  lemma {:induction false} ShadowingExecuted()
    ensures var compat := Execute(ShadowingOps(), Origin); "y" in compat && compat["y"] == 1
  {
    var ops := ShadowingOps();
    ExecuteNext([], ops[0], Origin);
    ExecuteNext([ops[0]], ops[1], Origin);
    var first := Execute([ops[0]], Origin);
    assert [] + [ops[0]] == [ops[0]] && [ops[0]] + [ops[1]] == ops;
    assert OutputName(ops[0]) == EMBED_ALIAS && OutputName(ops[1]) == "y";
    assert EMBED_WEIGHT !in first;
    assert OpOperands(ops[1], first, Origin) == [1];
  }

  lemma {:induction false} ShadowingEvaluated(aliases: map<string, string>)
    ensures var values := EvalGraph(SHADOWING, NOTHING, aliases, Origin, 2); "y" in values && values["y"] == 0
  {
    assert EvalGraph(SHADOWING, NOTHING, aliases, Origin, 0) == map[];
    var env := EvalGraph(SHADOWING, NOTHING, aliases, Origin, 1);
    assert NodeOperands(SHADOWING, 0, NOTHING, aliases, map[], Origin) == [];
    assert env == map[EMBED_ALIAS := 0];
    assert FILL in SHADOWING.nodes;
    assert NodeOperands(SHADOWING, 1, NOTHING, aliases, env, Origin) == [0];
  }
}
