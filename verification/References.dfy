/** What operations refer to, told field by field. */
module References {
  import opened Wrappers
  import opened ShapeOps
  import opened Weights
  import opened Mir
  import opened Compat
  import opened Lowering
  import opened Meaning

  /** The operations with a field `x`. */
  ghost predicate HasX(op: MirOp) {
    !(op.Const? || op.Attention? || op.Concat? || op.Stack? || op.Fill? || op.ReadState? || op.UpdateState? || op.Other?)
  }

  /** Some field for an operand holds this name. */
  ghost predicate FieldHolds(op: MirOp, n: string) {
    || (HasX(op) && op.x == n)
    || ((op.Binary? || op.Where? || op.Select? || op.MatMul?) && op.y == n)
    || ((op.Where? || op.Select?) && op.condition == n)
    || ((op.Linear? || op.LayerNorm?) && (op.weight == n || op.bias == Some(n)))
    || (op.Attention? && (op.query == n || op.key == n || op.value == n || op.mask == Some(n)))
    || (op.Gather? && op.indices == n)
    || ((op.Conv? || op.ConvTranspose?) && op.kernel == n)
    || ((op.Concat? || op.Stack?) && n in op.values)
    || (op.UpdateState? && op.update == n)
    || (op.Other? && n in op.inputs)
  }

  ghost predicate Weighted(op: MirOp) { op.Linear? || op.LayerNorm? || op.Attention? || op.Conv? || op.ConvTranspose? || op.Gather? }

  ghost predicate Variadic(op: MirOp) { op.Concat? || op.Stack? || op.Other? }

  /** The operands are exactly the names in those fields. */
  lemma {:induction false} OperandsAreFields(op: MirOp, n: string)
    ensures n in OperandNames(op) <==> FieldHolds(op, n)
  {
    if OneOperand(op) { OneField(op, n); } else if Weighted(op) { WeightedFields(op, n); }
  }

  lemma {:induction false} OneField(op: MirOp, n: string)
    requires OneOperand(op)
    ensures n in OperandNames(op) <==> FieldHolds(op, n)
  {
  }

  lemma {:induction false} WeightedFields(op: MirOp, n: string)
    requires Weighted(op)
    ensures n in OperandNames(op) <==> FieldHolds(op, n)
  {
  }

  /** Besides the operands, an update refers to its state and a fill to its shape tensor. */
  lemma {:induction false} InputsAreFields(op: MirOp, n: string)
    ensures n in InputNames(Direct(op)) <==>
      FieldHolds(op, n) || (op.UpdateState? && op.stateId == n) || (op.Fill? && n == op.name + "_shape")
  {
    OperandsAreFields(op, n);
  }

  // ----- renaming

  /** Renaming leaves an operation alone exactly if it leaves alone every name it holds. */
  lemma {:induction false} RenamingFixes(op: MirOp, f: Renaming)
    ensures MapNames(op, f) == op <==> (forall n | FieldHolds(op, n) :: f(n) == n) && (op.UpdateState? ==> f(op.stateId) == op.stateId)
  {
    if OneOperand(op) { RenamingFixesOne(op, f); } else if Variadic(op) { RenamingFixesMany(op, f); }
  }

  lemma {:induction false} RenamingFixesOne(op: MirOp, f: Renaming)
    requires OneOperand(op)
    ensures MapNames(op, f) == op <==> (forall n | FieldHolds(op, n) :: f(n) == n) && (op.UpdateState? ==> f(op.stateId) == op.stateId)
  {
    var names := OperandNames(op);
    forall n ensures FieldHolds(op, n) <==> n == names[0] { OneField(op, n); }
    if ResizesAxes(op) { FixesResizing(op, f); } else { FixesOther(op, f); }
  }

  lemma {:induction false} FixesResizing(op: MirOp, f: Renaming)
    requires ResizesAxes(op)
    ensures |OperandNames(op)| == 1 && (MapNames(op, f) == op <==> f(OperandNames(op)[0]) == OperandNames(op)[0])
  {
  }

  lemma {:induction false} FixesOther(op: MirOp, f: Renaming)
    requires OneOperand(op) && !ResizesAxes(op)
    ensures |OperandNames(op)| == 1
    ensures MapNames(op, f) == op <==> f(OperandNames(op)[0]) == OperandNames(op)[0] && (op.UpdateState? ==> f(op.stateId) == op.stateId)
  {
  }

  lemma {:induction false} RenamingFixesMany(op: MirOp, f: Renaming)
    requires Variadic(op)
    ensures MapNames(op, f) == op <==> forall n | FieldHolds(op, n) :: f(n) == n
  {
    var names := OperandNames(op);
    if MapNames(op, f) == op {
      forall n | FieldHolds(op, n) ensures f(n) == n {
        var i :| 0 <= i < |names| && names[i] == n;
        assert MapSeq(names, f)[i] == names[i];
      }
    } else if forall n | n in names :: f(n) == n {
      assert MapSeq(names, f) == names;
    }
  }

  // ----- blanking

  ghost predicate SameBlanked(a: MirOp, b: MirOp) {
    Blank(a) == Blank(b) && a.name == b.name && OperandNames(a) == OperandNames(b)
  }

  /** An operation is its name, its operands and what is left when these are blanked; for a
      constant also its path. */
  lemma {:induction false} BlankForgetsNames(a: MirOp, b: MirOp)
    ensures a == b <==> SameBlanked(a, b) && (a.Const? && b.Const? ==> a.valuePath == b.valuePath)
  {
    if SameBlanked(a, b) {
      if ResizesAxes(a) {
        ResizingFromBlank(a, b);
      } else if OneOperand(a) {
        OneFromBlank(a, b);
      } else if Weighted(a) {
        WeightedFromBlank(a, b);
      } else if !a.Const? {
        OtherFromBlank(a, b);
      } else {
        assert b.Const? && a.dtype == b.dtype;
      }
    }
  }

  lemma {:induction false} ResizingFromBlank(a: MirOp, b: MirOp)
    requires SameBlanked(a, b) && ResizesAxes(a)
    ensures a == b
  {
    assert OperandNames(a) == [a.x];
  }

  lemma {:induction false} OneFromBlank(a: MirOp, b: MirOp)
    requires SameBlanked(a, b) && OneOperand(a) && !ResizesAxes(a)
    ensures a == b
  {
    if a.Transpose? || a.ExpandDims? || a.Squeeze? || a.Flatten2d? {
      ReindexingFromBlank(a, b);
    } else {
      assert OperandNames(a)[0] == OperandNames(b)[0];
    }
  }

  lemma {:induction false} ReindexingFromBlank(a: MirOp, b: MirOp)
    requires SameBlanked(a, b) && (a.Transpose? || a.ExpandDims? || a.Squeeze? || a.Flatten2d?)
    ensures a == b
  {
    assert OperandNames(a)[0] == OperandNames(b)[0];
  }

  lemma {:induction false} WeightedFromBlank(a: MirOp, b: MirOp)
    requires SameBlanked(a, b) && Weighted(a)
    ensures a == b
  {
    assert OperandNames(a)[0] == OperandNames(b)[0] && OperandNames(a)[1] == OperandNames(b)[1];
    if |OperandNames(a)| > 2 { assert OperandNames(a)[2] == OperandNames(b)[2]; }
    if |OperandNames(a)| > 3 { assert OperandNames(a)[3] == OperandNames(b)[3]; }
  }

  lemma {:induction false} OtherFromBlank(a: MirOp, b: MirOp)
    requires SameBlanked(a, b) && !Weighted(a) && !OneOperand(a) && !a.Const?
    ensures a == b
  {
    if |OperandNames(a)| > 0 { assert OperandNames(a)[0] == OperandNames(b)[0]; }
    if |OperandNames(a)| > 1 { assert OperandNames(a)[1] == OperandNames(b)[1]; }
    if |OperandNames(a)| > 2 { assert OperandNames(a)[2] == OperandNames(b)[2]; }
  }

  // ----- the weights that are wanted

  ghost predicate IsPlaceholder(node: MirNode) { node.op.Identity? && node.op.x == PLACEHOLDER }

  /** What is emitted for a node refers to this name: a field of the node holds it before the
      redirection, or it names the state or the shape tensor. */
  ghost predicate RefersTo(node: MirNode, f: Renaming, w: string) {
    || (node.op.Fill? && w == node.id + "_shape")
    || (node.op.ReadState? && w == node.op.stateId)
    || (node.op.UpdateState? && w == f(node.op.stateId))
    || (!IsPlaceholder(node) && exists n :: FieldHolds(node.op, n) && f(n) == w)
  }

  /** A weight or a bias of a linear or a layer norm, after the redirection. */
  ghost predicate WeighsBy(op: MirOp, f: Renaming, w: string) {
    (op.Linear? || op.LayerNorm?) && (f(op.weight) == w || (op.bias.Some? && f(op.bias.value) == w))
  }

  lemma {:induction false} InputsOfEmitted(node: MirNode, resolver: Resolver, shapes: map<string, Shape>, f: Renaming, w: string)
    requires ConvertNode(node, resolver, shapes).Ok?
    ensures var c := RemapInputs(ConvertNode(node, resolver, shapes).value, f);
            w in InputNames(c) <==>
              || w in Operands(c)
              || (node.op.Fill? && w == node.id + "_shape")
              || (node.op.ReadState? && w == node.op.stateId)
              || (node.op.UpdateState? && w == f(node.op.stateId))
  {
    if node.op.UpdateState? {
      UpdateInputs(node, resolver, shapes, f);
    } else if node.op.Fill? {
      assert ConvertNode(node, resolver, shapes) == Ok(Direct(Fill(node.id, node.op.target)));
    } else if node.op.ReadState? {
      assert ConvertNode(node, resolver, shapes) == Ok(TypedReadState(node.id, node.op.stateId, node.op.target, node.dtype));
    } else {
      PlainInputs(node, resolver, shapes, f);
    }
  }

  lemma {:induction false} UpdateInputs(node: MirNode, resolver: Resolver, shapes: map<string, Shape>, f: Renaming)
    requires node.op.UpdateState?
    ensures ConvertNode(node, resolver, shapes).Ok?
    ensures var c := RemapInputs(ConvertNode(node, resolver, shapes).value, f);
            InputNames(c) == [f(node.op.stateId), f(node.op.update)] && Operands(c) == [f(node.op.update)]
  {
    assert ConvertNode(node, resolver, shapes) == Ok(Direct(UpdateState(node.id, node.op.stateId, node.op.update)));
  }

  lemma {:induction false} PlainInputs(node: MirNode, resolver: Resolver, shapes: map<string, Shape>, f: Renaming)
    requires !node.op.UpdateState? && !node.op.Fill? && !node.op.ReadState?
    requires ConvertNode(node, resolver, shapes).Ok?
    ensures var c := RemapInputs(ConvertNode(node, resolver, shapes).value, f); InputNames(c) == Operands(c)
  {
    var c := ConvertNode(node, resolver, shapes).value;
    assert !c.TypedReadState? && !(c.Direct? && (c.op.UpdateState? || c.op.Fill?)) by { ConvertedKind(node, resolver, shapes); }
    RemapKeepsKind(c, f);
  }

  lemma {:induction false} ConvertedKind(node: MirNode, resolver: Resolver, shapes: map<string, Shape>)
    requires ConvertNode(node, resolver, shapes).Ok?
    ensures var c := ConvertNode(node, resolver, shapes).value;
      && (c.TypedReadState? ==> node.op.ReadState?)
      && (c.Direct? ==> (c.op.UpdateState? <==> node.op.UpdateState?) && (c.op.Fill? <==> node.op.Fill?))
  {
  }

  lemma {:induction false} RemapKeepsKind(c: CompatOp, f: Renaming)
    ensures RemapInputs(c, f).TypedReadState? <==> c.TypedReadState?
    ensures RemapInputs(c, f).Direct? <==> c.Direct?
    ensures c.Direct? ==> (RemapInputs(c, f).op.UpdateState? <==> c.op.UpdateState?) && (RemapInputs(c, f).op.Fill? <==> c.op.Fill?)
  {
  }

  /** What is emitted refers exactly to what the node's fields hold, redirected, and to its state
      or shape tensor. */
  lemma {:induction false} EmittedRefers(node: MirNode, resolver: Resolver, shapes: map<string, Shape>, f: Renaming, w: string)
    requires ConvertNode(node, resolver, shapes).Ok?
    ensures w in InputNames(RemapInputs(ConvertNode(node, resolver, shapes).value, f)) <==> RefersTo(node, f, w)
  {
    var c, read := ConvertNode(node, resolver, shapes).value, Reads(node);
    ConvertKeepsReads(node, resolver, shapes);
    RemapMapsOperands(c, f);
    InputsOfEmitted(node, resolver, shapes, f, w);
    forall n ensures n in read <==> !IsPlaceholder(node) && FieldHolds(node.op, n) { OperandsAreFields(node.op, n); }
    if w in MapSeq(read, f) {
      var i :| 0 <= i < |read| && MapSeq(read, f)[i] == w;
      assert FieldHolds(node.op, read[i]) && f(read[i]) == w;
    }
    if n :| n in read && f(n) == w {
      var i :| 0 <= i < |read| && read[i] == n;
      assert MapSeq(read, f)[i] == w;
    }
  }

  lemma {:induction false} EmittedWeighs(op: MirOp, f: Renaming, w: string)
    ensures w in NodeWeights(op, f) <==> WeighsBy(op, f, w)
  {
  }

  /** The weights that are wanted, told from the nodes alone: weights and biases that are no
      constant, and whatever else a field of a node names that resolves and is no node. */
  lemma {:induction false} WantedIff(nodes: seq<MirNode>, resolver: Resolver, f: Renaming, ops: seq<CompatOp>, w: string)
    requires Converted(nodes, resolver, DeclaredShapes(nodes), f, |nodes|) == Ok(ops)
    ensures Wanted(w, ops, ConstNames(ops), NodeIds(nodes), resolver) <==>
      || (w !in ConstIds(nodes) && exists node :: node in nodes && WeighsBy(node.op, f, w))
      || (w !in NodeIds(nodes) && resolver(w).Some? && exists node :: node in nodes && RefersTo(node, f, w))
  {
    var shapes := DeclaredShapes(nodes);
    ConvertedOps(nodes, resolver, shapes, f, |nodes|);
    NodeWeightsEmitted(nodes, resolver, shapes, f);
    ConstNamesAreConstIds(nodes, resolver, shapes, f, ops);
    forall i | 0 <= i < |nodes|
      ensures w in WeightRefs(ops[i]) <==> WeighsBy(nodes[i].op, f, w)
      ensures w in InputNames(ops[i]) <==> RefersTo(nodes[i], f, w)
    {
      EmittedWeighs(nodes[i].op, f, w);
      EmittedRefers(nodes[i], resolver, shapes, f, w);
    }
    assert w in ConstIds(nodes) ==> w in NodeIds(nodes);
    if Wanted(w, ops, ConstNames(ops), NodeIds(nodes), resolver) {
      var i :| 0 <= i < |ops| && WantedBy(w, ops[i], ConstNames(ops), NodeIds(nodes), resolver);
      assert nodes[i] in nodes;
    }
    if w !in ConstIds(nodes) && exists node :: node in nodes && WeighsBy(node.op, f, w) {
      var i :| 0 <= i < |nodes| && WeighsBy(nodes[i].op, f, w);
      assert ops[i] in ops && WantedBy(w, ops[i], ConstNames(ops), NodeIds(nodes), resolver);
    }
    if w !in NodeIds(nodes) && resolver(w).Some? && exists node :: node in nodes && RefersTo(node, f, w) {
      var i :| 0 <= i < |nodes| && RefersTo(nodes[i], f, w);
      assert ops[i] in ops && WantedBy(w, ops[i], ConstNames(ops), NodeIds(nodes), resolver);
    }
  }

  /** So the kernel of a convolution, the indices of a gather and the mask of an attention are
      wanted whenever they resolve and are no nodes. */
  lemma {:induction false} KernelIsWanted(nodes: seq<MirNode>, resolver: Resolver, f: Renaming, ops: seq<CompatOp>, k: nat, n: string)
    requires Converted(nodes, resolver, DeclaredShapes(nodes), f, |nodes|) == Ok(ops) && k < |nodes|
    requires var op := nodes[k].op;
      || ((op.Conv? || op.ConvTranspose?) && n == op.kernel)
      || (op.Gather? && n == op.indices)
      || (op.Attention? && op.mask == Some(n))
    requires f(n) !in NodeIds(nodes) && resolver(f(n)).Some?
    ensures Wanted(f(n), ops, ConstNames(ops), NodeIds(nodes), resolver)
  {
    assert nodes[k] in nodes && FieldHolds(nodes[k].op, n) && RefersTo(nodes[k], f, f(n));
    WantedIff(nodes, resolver, f, ops, f(n));
  }
}
