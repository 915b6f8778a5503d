/** The check of builder operations before emission (`verify.py`). */
module SsaChecker {
  import opened Wrappers

  /** An operation; `outputName` is absent when the dictionary has no such key. */
  datatype Op = Op(outputName: Option<string>, inputs: seq<string>)

  datatype Issue = Duplicate(name: string) | Dangling(input: string, op: Option<string>)

  /** Names of constants and weights are not looked up. */
  predicate Exempt(name: string) { "const_" <= name || "weight_" <= name }

  ghost predicate Defines(ops: seq<Op>, name: string) {
    exists j :: 0 <= j < |ops| && ops[j].outputName == Some(name)
  }

  /** `name` may be read by operation `k`: some operation up to `k` itself produces it, it is
      an input of the graph, or it is exempt. */
  ghost predicate Readable(ops: seq<Op>, graphInputs: set<string>, k: nat, name: string)
    requires k < |ops|
  {
    Defines(ops[..k + 1], name) || name in graphInputs || Exempt(name)
  }

  /** Two operations produce `name`. */
  ghost predicate DefinedTwice(ops: seq<Op>, name: string) {
    exists i, j :: 0 <= i < j < |ops| && ops[i].outputName == ops[j].outputName == Some(name)
  }

  /** Some operation with output `output` reads `name` and may not. */
  ghost predicate ReadsDangling(ops: seq<Op>, graphInputs: set<string>, name: string, output: Option<string>) {
    exists k :: 0 <= k < |ops| && ops[k].outputName == output && name in ops[k].inputs && !Readable(ops, graphInputs, k, name)
  }

  /** No name is produced twice, and every input may be read where it is. */
  ghost predicate Clean(ops: seq<Op>, graphInputs: set<string>) {
    && (forall i, j :: 0 <= i < j < |ops| && ops[i].outputName.Some? ==> ops[i].outputName != ops[j].outputName)
    && (forall k, name :: 0 <= k < |ops| && name in ops[k].inputs ==> Readable(ops, graphInputs, k, name))
  }

  ghost predicate Exact(issues: seq<Issue>, ops: seq<Op>, graphInputs: set<string>) {
    && (forall name :: Duplicate(name) in issues <==> DefinedTwice(ops, name))
    && (forall name, output :: Dangling(name, output) in issues <==> ReadsDangling(ops, graphInputs, name, output))
  }

  /** The issues reported are exactly the faults present. */
  method PreEmitVerification(ops: seq<Op>, graphInputs: set<string>) returns (issues: seq<Issue>)
    ensures Exact(issues, ops, graphInputs)
    ensures issues == [] <==> Clean(ops, graphInputs)
  {
    issues := [];
    var definedNames: set<string> := {};
    for k := 0 to |ops|
      invariant forall name :: name in definedNames <==> Defines(ops[..k], name)
      invariant Exact(issues, ops[..k], graphInputs)
    {
      var op := ops[k];
      ghost var before := issues;
      assert ops[..k + 1] == ops[..k] + [op];
      if op.outputName.Some? {
        if op.outputName.value in definedNames {
          issues := issues + [Duplicate(op.outputName.value)];
        }
        definedNames := definedNames + {op.outputName.value};
      }
      DefinesOneMore(ops, k);
      var dangling := DanglingInputs(op, definedNames, graphInputs);
      issues := issues + dangling;
      ExactOneMore(ops, graphInputs, k, before, issues);
    }
    assert ops[..|ops|] == ops;
    NoIssuesIffClean(ops, graphInputs, issues);
  }

  method DanglingInputs(op: Op, definedNames: set<string>, graphInputs: set<string>) returns (issues: seq<Issue>)
    ensures forall i :: i in issues <==>
      i.Dangling? && i.op == op.outputName && i.input in op.inputs
      && i.input !in definedNames && i.input !in graphInputs && !Exempt(i.input)
  {
    issues := [];
    for j := 0 to |op.inputs|
      invariant forall i :: i in issues <==>
        i.Dangling? && i.op == op.outputName && i.input in op.inputs[..j]
        && i.input !in definedNames && i.input !in graphInputs && !Exempt(i.input)
    {
      var input := op.inputs[j];
      assert op.inputs[..j + 1] == op.inputs[..j] + [input];
      if input !in definedNames && input !in graphInputs {
        if !("const_" <= input) && !("weight_" <= input) {
          issues := issues + [Dangling(input, op.outputName)];
        }
      }
    }
    assert op.inputs[..|op.inputs|] == op.inputs;
  }

  lemma {:induction false} DefinesOneMore(ops: seq<Op>, k: nat)
    requires k < |ops|
    ensures forall name :: Defines(ops[..k + 1], name) <==> Defines(ops[..k], name) || ops[k].outputName == Some(name)
  {
    forall name ensures Defines(ops[..k + 1], name) <==> Defines(ops[..k], name) || ops[k].outputName == Some(name) {
      if Defines(ops[..k], name) {
        var j :| 0 <= j < k && ops[..k][j].outputName == Some(name);
        assert ops[..k + 1][j].outputName == Some(name);
      }
      if ops[k].outputName == Some(name) { assert ops[..k + 1][k].outputName == Some(name); }
      if Defines(ops[..k + 1], name) {
        var j :| 0 <= j < k + 1 && ops[..k + 1][j].outputName == Some(name);
        if j < k { assert ops[..k][j].outputName == Some(name); }
      }
    }
  }

  lemma {:induction false} TwiceOneMore(ops: seq<Op>, k: nat, name: string)
    requires k < |ops|
    ensures DefinedTwice(ops[..k + 1], name)
            <==> DefinedTwice(ops[..k], name) || (ops[k].outputName == Some(name) && Defines(ops[..k], name))
  {
    var small, large := ops[..k], ops[..k + 1];
    if DefinedTwice(small, name) {
      var i, j :| 0 <= i < j < |small| && small[i].outputName == small[j].outputName == Some(name);
      assert large[i].outputName == large[j].outputName;
    }
    if ops[k].outputName == Some(name) && Defines(small, name) {
      var i :| 0 <= i < |small| && small[i].outputName == Some(name);
      assert large[i].outputName == large[k].outputName;
    }
    if DefinedTwice(large, name) {
      var i, j :| 0 <= i < j < |large| && large[i].outputName == large[j].outputName == Some(name);
      assert small[i].outputName == Some(name);
      if j < k { assert small[i].outputName == small[j].outputName; }
    }
  }

  lemma {:induction false} DanglingOneMore(ops: seq<Op>, graphInputs: set<string>, k: nat, name: string, output: Option<string>)
    requires k < |ops|
    ensures ReadsDangling(ops[..k + 1], graphInputs, name, output)
            <==> || ReadsDangling(ops[..k], graphInputs, name, output)
                 || (ops[k].outputName == output && name in ops[k].inputs && !Readable(ops, graphInputs, k, name))
  {
    var small, large := ops[..k], ops[..k + 1];
    assert large[..k + 1] == ops[..k + 1];
    forall i | 0 <= i < k ensures Readable(small, graphInputs, i, name) <==> Readable(large, graphInputs, i, name) {
      assert small[..i + 1] == large[..i + 1];
    }
    if ReadsDangling(small, graphInputs, name, output) {
      var i :| 0 <= i < |small| && small[i].outputName == output && name in small[i].inputs && !Readable(small, graphInputs, i, name);
      assert large[i].outputName == output && !Readable(large, graphInputs, i, name);
    }
    if ReadsDangling(large, graphInputs, name, output) {
      var i :| 0 <= i < |large| && large[i].outputName == output && name in large[i].inputs && !Readable(large, graphInputs, i, name);
      if i < k { assert small[i].outputName == output && !Readable(small, graphInputs, i, name); }
    }
    if ops[k].outputName == output && name in ops[k].inputs && !Readable(ops, graphInputs, k, name) {
      assert large[k].outputName == output && !Readable(large, graphInputs, k, name);
    }
  }

  lemma {:induction false} ExactOneMore(ops: seq<Op>, graphInputs: set<string>, k: nat, before: seq<Issue>, after: seq<Issue>)
    requires k < |ops|
    requires Exact(before, ops[..k], graphInputs)
    requires forall i :: i in after <==>
      (|| i in before
       || (i.Duplicate? && ops[k].outputName == Some(i.name) && Defines(ops[..k], i.name))
       || (i.Dangling? && i.op == ops[k].outputName && i.input in ops[k].inputs && !Readable(ops, graphInputs, k, i.input)))
    ensures Exact(after, ops[..k + 1], graphInputs)
  {
    forall name ensures Duplicate(name) in after <==> DefinedTwice(ops[..k + 1], name) {
      TwiceOneMore(ops, k, name);
    }
    forall name, output
      ensures Dangling(name, output) in after <==> ReadsDangling(ops[..k + 1], graphInputs, name, output)
    {
      DanglingOneMore(ops, graphInputs, k, name, output);
    }
  }

  lemma {:induction false} NoIssuesIffClean(ops: seq<Op>, graphInputs: set<string>, issues: seq<Issue>)
    requires Exact(issues, ops, graphInputs)
    ensures issues == [] <==> Clean(ops, graphInputs)
  {
    if issues == [] {
      forall i, j | 0 <= i < j < |ops| && ops[i].outputName.Some? ensures ops[i].outputName != ops[j].outputName {
        assert !DefinedTwice(ops, ops[i].outputName.value);
      }
      forall k, name | 0 <= k < |ops| && name in ops[k].inputs ensures Readable(ops, graphInputs, k, name) {
        assert !ReadsDangling(ops, graphInputs, name, ops[k].outputName);
      }
    } else {
      match issues[0]
      case Duplicate(name) => assert DefinedTwice(ops, name);
      case Dangling(name, output) => assert ReadsDangling(ops, graphInputs, name, output);
    }
  }

  // ----- an operation that reads its own output

  ghost predicate ReadsItself(op: Op) {
    op.outputName.Some? && op.outputName.value in op.inputs
  }

  /** The stricter reading of a resolved reference: an input comes from an earlier operation. */
  ghost predicate StrictlyClean(ops: seq<Op>, graphInputs: set<string>) {
    && (forall i, j :: 0 <= i < j < |ops| && ops[i].outputName.Some? ==> ops[i].outputName != ops[j].outputName)
    && (forall k, name :: 0 <= k < |ops| && name in ops[k].inputs ==>
          Defines(ops[..k], name) || name in graphInputs || Exempt(name))
  }

  /** An operation whose only input is its own output passes the check. */
  lemma {:induction false} SelfReadPasses()
    ensures var ops := [Op(Some("x"), ["x"])];
            Clean(ops, {}) && !StrictlyClean(ops, {})
  {
    var ops := [Op(Some("x"), ["x"])];
    assert ops[..1][0].outputName == Some("x");
    assert Defines(ops[..1], "x");
    assert !Defines(ops[..0], "x");
    assert !Exempt("x") by { assert "x"[0] == 'x' && "const_"[0] == 'c' && "weight_"[0] == 'w'; }
    assert "x" in ops[0].inputs;
  }

  /** Passing the check means every input comes from an earlier operation exactly when each
      operation that reads its own output reads a graph input or an exempt name by it. */
  lemma {:induction false} CleanIsStrictExceptSelfReads(ops: seq<Op>, graphInputs: set<string>)
    ensures StrictlyClean(ops, graphInputs) <==>
      && Clean(ops, graphInputs)
      && forall op | op in ops && ReadsItself(op) :: op.outputName.value in graphInputs || Exempt(op.outputName.value)
  {
    forall k | 0 <= k < |ops| ensures forall name :: Defines(ops[..k + 1], name) <==> Defines(ops[..k], name) || ops[k].outputName == Some(name) {
      DefinesOneMore(ops, k);
    }
    if StrictlyClean(ops, graphInputs) {
      forall op | op in ops && ReadsItself(op)
        ensures op.outputName.value in graphInputs || Exempt(op.outputName.value)
      {
        var k :| 0 <= k < |ops| && ops[k] == op;
        var name := op.outputName.value;
        forall j | 0 <= j < k ensures ops[..k][j].outputName != Some(name) {
          assert ops[j].outputName.Some? ==> ops[j].outputName != ops[k].outputName;
        }
      }
    }
  }

  /** A dangling input, with all conditions written out: neither this operation nor one before it
      produces it, it is no input of the graph, and it does not begin like a constant or a weight. */
  lemma {:induction false} DanglingWrittenOut(ops: seq<Op>, graphInputs: set<string>, issues: seq<Issue>, name: string, output: Option<string>)
    requires Exact(issues, ops, graphInputs)
    ensures Dangling(name, output) in issues <==>
      && name !in graphInputs
      && !(|name| >= 6 && name[..6] == "const_") && !(|name| >= 7 && name[..7] == "weight_")
      && exists k :: 0 <= k < |ops| && ops[k].outputName == output && name in ops[k].inputs
                     && forall j | 0 <= j <= k :: ops[j].outputName != Some(name)
  {
    forall k | 0 <= k < |ops|
      ensures Readable(ops, graphInputs, k, name) <==>
        || (exists j :: 0 <= j <= k && ops[j].outputName == Some(name))
        || name in graphInputs || (|name| >= 6 && name[..6] == "const_") || (|name| >= 7 && name[..7] == "weight_")
    {
      ReadableWrittenOut(ops, graphInputs, k, name);
    }
  }

  lemma {:induction false} ReadableWrittenOut(ops: seq<Op>, graphInputs: set<string>, k: nat, name: string)
    requires k < |ops|
    ensures Readable(ops, graphInputs, k, name) <==>
      || (exists j :: 0 <= j <= k && ops[j].outputName == Some(name))
      || name in graphInputs || (|name| >= 6 && name[..6] == "const_") || (|name| >= 7 && name[..7] == "weight_")
  {
    if j :| 0 <= j <= k && ops[j].outputName == Some(name) { assert ops[..k + 1][j].outputName == Some(name); }
    if Defines(ops[..k + 1], name) {
      var j :| 0 <= j < |ops[..k + 1]| && ops[..k + 1][j].outputName == Some(name);
      assert ops[j].outputName == Some(name);
    }
  }

  /** A duplicate, with all conditions written out. */
  lemma {:induction false} DuplicateWrittenOut(ops: seq<Op>, graphInputs: set<string>, issues: seq<Issue>, name: string)
    requires Exact(issues, ops, graphInputs)
    ensures Duplicate(name) in issues <==>
      exists i, j :: 0 <= i < j < |ops| && ops[i].outputName == Some(name) && ops[j].outputName == Some(name)
  {
  }
}
