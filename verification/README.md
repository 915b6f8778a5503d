# Verified model of the MIR bridge

The bridge lowers a compiler graph (MIR) to the operations that are emitted as a Core ML
model. This project models the lowering pass as a small verified compiler pass, together
with the shape analysis it runs, the weight resolvers that feed it, and three Python
companions: the generator of fallback graphs, the check made before emission, and the
comparison of a compiled model with what was expected of it.

`dafny verify dfyconfig.toml` checks the whole project. One module stands for one component:

| module | models |
|---|---|
| `Mir`, `Compat`, `References` | the graph, the emitted operations, the conversion of one node, what an operation refers to |
| `AliasMap`, `AliasKeys` | names of an earlier decomposition and the nodes they stand for |
| `Lowering`, `Interface`, `Meaning`, `Departures` | the pass, its inputs and outputs, what the emitted operations compute, and where that is not what the graph means |
| `ShapeOps`, `ShapeInference`, `ShapeRules`, `ForwardShapes`, `EarlyShapes`, `ElementCounts`, `RearrangingPaths` | shape rules, the two inference engines, the forward pass in and out of order, element counts along graphs |
| `ReshapeResolution`, `ReshapeReading` | completion of reshape targets that contain zeros, and what such targets mean |
| `Shards`, `Half`, `Narrowing`, `StaticTables`, `TablePaths` | virtual shards, binary16 rounding, narrowing of weight buffers, position tables, their cache and their paths |
| `SsaChecker`, `FallbackGraph`, `FallbackWiring`, `StructureComparison` | the Python companions |
| `Wrappers`, `Strings`, `Bytes`, `Arithmetic`, `Weights` | shared vocabulary |

A loop of the source is a method with a loop, proved equal to a function (or to a predicate
that determines its result); what the source promises is then proved about that function.
The table cache is a class whose ghost field records the names asked for; its invariant says
that the cache holds the tables of exactly those names.

Every lemma carries `{:induction false}`: an induction is written out where there is one, and
the hypotheses Dafny 4.11 would add by itself are kept out, because it states them for values
of any type, which lets a lemma over two sequences of different datatypes prove anything.

Names, constants and positions are also written out apart from the functions that use them:
which fields an operation refers to (`References`), which node each alias stands for
(`AliasKeys`), what each shape rule gives for each dimension (`ShapeRules`), what each path of
a table resolves to (`TablePaths`), what each node of a fallback graph reads
(`FallbackWiring`).

The main results:

* **Meaning.** For every graph the pass accepts in which every operation carries over, nodes
  come after what they read and no node that is read is shadowed by an alias, running the
  emitted operations with plain lookups gives each node its own value, under every
  interpretation of the operations (`Meaning.MeaningPreserved`). The graph's side is defined
  without the conversion: a constant is the tensor of its path, and a target with zeros is the
  shape its declarations leave (`ReshapeReading.DenotesIff`). Which operations carry over is
  stated exactly (`Meaning.ConvertKeepsAction`), and so is what happens at the first node where
  a condition fails (`Departures.FirstDeparture`).
* **Names.** All emitted names are distinct exactly when the node ids are and no weight bears
  the id of a node that is no constant; which operands are defined before they are used is
  stated exactly; the weight reported missing is the least one.
* **Shapes.** One forward pass is a fixpoint, and out of order it is known exactly which shapes
  are not; on every map it is known exactly when the two
  engines agree, up to four guesses; reshape targets conserve the element count under an
  exact condition; convolutions count windows; rearranging operations conserve elements along
  whole paths.
* **Weights.** Shards partition a tensor; narrowing is correctly rounded for every bit
  pattern; after any run of requests the cache is determined by the set of names requested.
* **Checks.** The check before emission reports exactly the faults present, and every fallback
  graph passes it.

Where a promise of the source is false on some inputs, a lemma with a concrete input shows it,
and where the promise can be rescued another one gives the exact condition:

| input | exact condition |
|---|---|
| a node read under the name of an alias (`Departures.ShadowedAliasCounterexample`) | `Departures.OperandsFollowed` for operands, `Departures.FirstDeparture` for values |
| a weight put under another dtype or shape (`Departures.RetaggedConstCounterexample`), as `crates/passes/src/mil_lower.rs:3766-3777` does with the weight of a norm | `Meaning.ConstMeaning` |
| a constant nobody resolves (`Compat.MissingConstIsZeroFilled`, `Lowering.ConstantsAreAccepted`) | `Meaning.ConstMeaning` |
| a flattening axis or the epsilon of a logarithm that is not emitted (`Compat.FlattenLosesAxis`, `Departures.LogarithmCounterexample`) | `Meaning.ConvertKeepsAction` |
| a batch size that does not divide (`ReshapeResolution.BatchCounterexample`) | `ReshapeResolution.ResolutionConservesElements` |
| a declared shape that overrules the target (`Compat.NodeShapeCounterexample`) | `Compat.StrategyKeepsTarget`, `Compat.StrategyKeepsCount` |
| a reshape recorded with the zeros of its target (`RearrangingPaths.RecordedZeroCounterexample`) | `RearrangingPaths.ReshapeRecordedAsEmitted` |
| a transposed right operand (`ShapeInference.TransposeCounterexample`) | `ShapeInference.MatMulIgnoresTranspose` |
| strides, negative begins and long ends of slices (`ShapeInference.SliceCounterexample`) | `ShapeRules.SliceDimCountsIndices` |
| a kernel larger than the padded input (`ShapeInference.LargeKernelCounterexample`) | `ShapeRules.ConvRule` |
| an operation that reads its own output (`SsaChecker.SelfReadPasses`) | `SsaChecker.CleanIsStrictExceptSelfReads` |
| dimensions of zero in broadcasts (`ShapeOps.BroadcastZeroCounterexample`) | `ShapeOps.GroupingsAgree`, `ShapeOps.AllGroupingsAgree` |
| concatenated operands of unknown shape | `ElementCounts.ConcatOfUnknown` |
| positions 2048 and 2049 in binary16 (`StaticTables.PositionsCollide`) | `StaticTables.PositionsDistinct` |
| an empty shape in the map (`ShapeInference.EmptyShapeCounterexample`) | `ShapeInference.EnginesAgreeIff`, on the maps of the pass `ForwardShapes.ReachableMapsAgree` |
| nodes out of order, where a shape is learned late (`ForwardShapes.OutOfOrderCounterexample`) | `ForwardShapes.PassIsIdleIff`, on the map a pass starts from |
| nodes out of order, where a shape is settled early (`EarlyShapes.EarlyShapeCounterexample`) | `EarlyShapes.RecordedIsFinalIff` |

The code and its comments disagree in places; the model follows the code. The comment of
`ensure_tables_computed` speaks of four tables, the code caches six (four above 8192
positions). The comment of `resolve_shard` speaks of a fixed shard size, the code derives it
from the vocabulary. The comment on seeding constants promises two keys, the code inserts one.
The docstring of `pre_emit_verification` lists five checks, the code makes the first two.

## Model

| member | source | states |
|---|---|---|
| Meaning.MeaningPreserved | crates/bridge/src/mir_to_compat.rs:192-313 | where all operations carry over, nodes follow what they read and none that is read is shadowed, the emitted operations run with plain lookup give every node id the value of the graph, with aliases followed and weights resolved, for any semantics |
| Meaning.Simulation | crates/bridge/src/mir_to_compat.rs:207-313 | after any prefix of nodes that carry over the two environments agree on those nodes, and every other name is bound exactly to the wanted weight of that name |
| Meaning.ConstantsBindWeights | crates/bridge/src/mir_to_compat.rs:265-311 | the prepended constants bind exactly the wanted weights that resolve, each to its own tensor |
| Meaning.SameAction | crates/bridge/src/mir_to_compat.rs:715-749 | an emitted operation is named by its node's id and reads its operands redirected; it does what the node means exactly when the operation and the state it updates carry over |
| Meaning.ConvertKeepsAction | crates/bridge/src/mir_to_compat.rs:715-838 | the conversion keeps the meaning of a node exactly for the operations that carry over, the others being listed by the attribute they lose, as a logarithm its epsilon |
| Meaning.ConstMeaning | crates/bridge/src/mir_to_compat.rs:1019-1049 | a constant keeps its meaning exactly if its path resolves to a tensor of the declared dtype and, if one is declared, the declared shape |
| Meaning.ReshapeMeaning | crates/bridge/src/mir_to_compat.rs:760-833 | an emitted target is the meaning of the written one exactly if it is the same or, for zeros, fits the declarations and is determined by them |
| Meaning.RedirectFollows | crates/bridge/src/mir_to_compat.rs:628-633 | redirecting a name finds what it stands for exactly where no node of that name is shadowed |
| Meaning.SameValue | crates/bridge/src/mir_to_compat.rs:628-633 | redirecting a name before emission and following it in the graph find the same value |
| Meaning.DefinedBeforeUse | crates/bridge/src/mir_to_compat.rs:312-313 | an operand of an emitted operation is the output of an earlier one exactly if it is an earlier node or a wanted weight other than an unresolved static table; so it is one, whatever the operation, unless it is a node that is not earlier, or neither a node nor a weight that resolves |
| Departures.ShadowedAliasCounterexample | crates/bridge/src/mir_to_compat.rs:628-633 | a node that bears the name of an alias is passed over, and its reader computes something else |
| Departures.OperandsFollowed | crates/bridge/src/mir_to_compat.rs:628-633 | an emitted operation reads what its node means to read exactly when none of it is shadowed |
| Departures.FirstDeparture | crates/bridge/src/mir_to_compat.rs:192-313 | after nodes that carry over, the next one gets its own value under free terms exactly when it carries over and everything it reads of shadowed or later nodes happens to be the same computation |
| Departures.RetaggedConstCounterexample | crates/bridge/src/mir_to_compat.rs:1019-1049 | a half-precision weight of shape 4 is emitted as a single-precision tensor of shape 1 by 2 by 4 with the same bytes |
| Departures.LogarithmCounterexample | crates/bridge/src/mir_to_compat.rs:1502-1504 | logarithms are emitted as the same operation whatever their epsilons, and mean the same exactly if these are equal |
| Departures.ReshapeCarries | crates/bridge/src/mir_to_compat.rs:760-833 | branch by branch on target, declared shape and operand: when a reshape whose target fits 32 bits carries over |
| References.InputsAreFields | crates/coreml-proto/src/lib.rs:1221-1404 | an operation refers exactly to the names its fields hold, each field told by its name, and to the state of an update or the shape tensor of a fill |
| References.RenamingFixes | crates/coreml-proto/src/lib.rs:1412-1819 | renaming leaves an operation unchanged exactly if it leaves every name in a field unchanged |
| References.BlankForgetsNames | crates/bridge/src/mir_to_compat.rs:1019-1775 | an operation is determined by its name, its operands and its other attributes, so none of them is lost from view |
| References.EmittedRefers | crates/bridge/src/mir_to_compat.rs:207-213 | what is emitted for a node refers exactly to what the node's fields hold, redirected, and to its state or shape tensor |
| References.WantedIff | crates/bridge/src/mir_to_compat.rs:218-263 | the wanted weights, told from the nodes alone: weights and biases of linears and layer norms that are no constant, and whatever else a field names that resolves and is no node |
| References.KernelIsWanted | crates/bridge/src/mir_to_compat.rs:246-262 | a kernel, the indices of a gather and a mask are wanted whenever they resolve and are no nodes |
| Meaning.OperandsAreInputs | crates/coreml-proto/src/lib.rs:1221-1404 | every operand an operation reads is among the names it reports for weight collection |
| Lowering.MirGraphToCompat | crates/bridge/src/mir_to_compat.rs:185-503 | on success constants are followed by converted nodes and the descriptions and shapes are those of the graph; an interface error means that lowering succeeded, an aborted run that the inputs were described and this is the first node whose shape rule fails, and an output error that the forward pass completed |
| Lowering.OutputsNeverPanic | crates/bridge/src/mir_to_compat.rs:456-490 | in topological order, once the forward pass has completed, describing an output fails only for want of its node |
| Interface.InputDescribed | crates/bridge/src/mir_to_compat.rs:324-372 | an input has its node's dtype and shape, a missing shape guessed by name; without a node the given shape, and integers exactly if the name speaks of positions, ids or masks; else it is missing |
| Interface.OutputDescribed | crates/bridge/src/mir_to_compat.rs:456-490 | an output has its node's dtype and the settled shape, or what is inferred if there is none; without a node it is missing |
| Interface.DescribedEach | crates/bridge/src/mir_to_compat.rs:324-372 | every name is described in order, or the first that cannot be is reported |
| Interface.InputSeeded | crates/bridge/src/mir_to_compat.rs:389-401 | inputs are seeded with the shapes they are described by, and nothing else is |
| Interface.ConstSeeded | crates/bridge/src/mir_to_compat.rs:403-428 | a constant without a shape is seeded with its tensor's, or with one element for an unresolved scalar, and nothing else is |
| Interface.FinalShape | crates/bridge/src/mir_to_compat.rs:386-454 | in topological order every node ends with its seed, else its declared shape, else what its rule gives on the final map |
| Interface.FailsIff | crates/bridge/src/shape_inference.rs:536-697 | a rule aborts the pass exactly when a shapeless node splits a dimension into no parts, slices without an end, or flattens beyond the rank |
| Lowering.LowerOps | crates/bridge/src/mir_to_compat.rs:192-313 | on success the emitted list is materialised weights in ascending order and then the nodes; on failure the first phase that fails decides the error |
| Lowering.RejectedNotAccepted | crates/bridge/src/mir_to_compat.rs:192-313 | no graph is both rejected and accepted, and the error of a rejected one is determined |
| Lowering.ConvertNodes | crates/bridge/src/mir_to_compat.rs:207-213 | collects all conversions, or the error of the first node that cannot be converted |
| Lowering.CollectedOps | crates/bridge/src/mir_to_compat.rs:207-213 | there is one operation for each node, in order |
| Lowering.ConvertedOps | crates/bridge/src/mir_to_compat.rs:207-213 | operation i is node i converted and redirected, bears its id, and is a constant exactly when the node is |
| Lowering.CollectWeights | crates/bridge/src/mir_to_compat.rs:218-263 | collects exactly the weights and biases without a constant and the other referenced names that resolve and are neither node nor constant |
| Lowering.Materialize | crates/bridge/src/mir_to_compat.rs:267-311 | the constants of all names, or an error at the first name that cannot be materialised |
| Lowering.EmittedConstants | crates/bridge/src/mir_to_compat.rs:265-311 | a constant is emitted for exactly the wanted names other than unresolved static tables, in strictly ascending order |
| Lowering.EmissionDetermined | crates/bridge/src/mir_to_compat.rs:265-311 | what is emitted does not depend on the order in which weights were collected |
| Lowering.ConvertedNames | crates/bridge/src/mir_to_compat.rs:643-645 | the names of the converted operations are the node ids |
| Lowering.ConstantsAvoidIds | crates/bridge/src/mir_to_compat.rs:226-263 | no constant is emitted under a node id exactly when no weight bears the id of a node that is no constant |
| Lowering.NamesDistinct | crates/bridge/src/mir_to_compat.rs:192-313 | all emitted names are pairwise distinct exactly when the node ids are and no weight bears the id of a node that is no constant |
| Lowering.WeightsAreConstants | crates/bridge/src/mir_to_compat.rs:229-313 | every weight or bias that is not a skipped static table names a constant, and only one when names are distinct; materialised operations are all constants |
| Lowering.LeastUnresolvedReported | crates/bridge/src/mir_to_compat.rs:267-306 | without placeholders the error names the lexicographically least wanted weight that is unresolved and not static, and there is an error exactly when there is such a weight |
| Lowering.PlaceholdersNeverFail | crates/bridge/src/mir_to_compat.rs:292-306 | with placeholders allowed no weight is reported missing |
| Lowering.MissingConstIsEmitted | crates/bridge/src/mir_to_compat.rs:1041-1046 | with placeholders forbidden a constant nobody resolves is still emitted as zeros |
| Lowering.MaterializedIs | crates/bridge/src/mir_to_compat.rs:267-311 | a materialised weight carries its tensor; one nobody resolves is a single half-precision zero, if allowed, and never a static table |
| Lowering.LeftOutIs | crates/bridge/src/mir_to_compat.rs:280-291 | a wanted weight is left out exactly if it is an unresolved path below `static_tables/` |
| Lowering.DeclaredIsLast | crates/bridge/src/mir_to_compat.rs:200-206 | the shape declared for an id is that of the last node that declares one |
| Lowering.ConstantsAreAccepted | crates/bridge/src/mir_to_compat.rs:192-313 | with placeholders forbidden a graph of constants is accepted whether or not anybody resolves them |
| Compat.RemapMapsOperands | crates/coreml-proto/src/lib.rs:1412-1819 | remapping maps exactly the operands, in order, and keeps the output name |
| Compat.ConvertedName | crates/bridge/src/mir_to_compat.rs:715-749 | a converted node is named by its id, and is a constant exactly when the node is |
| Compat.ReshapeRefused | crates/bridge/src/mir_to_compat.rs:761-833 | a reshape is refused exactly when a dimension is a multiple of 2^32 after every strategy, and emitted unchanged exactly below 2^31 |
| Compat.StrategyKeepsTarget | crates/bridge/src/mir_to_compat.rs:761-803 | the strategies keep rank and non-zero dimensions exactly unless a declared shape stands in for the target and differs there |
| Compat.StrategyKeepsCount | crates/bridge/src/mir_to_compat.rs:761-803 | when the strategies together give the operand's element count, branch by branch |
| Compat.NodeShapeCounterexample | crates/bridge/src/mir_to_compat.rs:776-783 | a declared shape of 5 by 7 replaces a target of 0 by 6 |
| Compat.MissingConstIsZeroFilled | crates/bridge/src/mir_to_compat.rs:1041-1046 | a constant node nobody resolves is converted to zeros of its shape |
| Compat.FlattenLosesAxis | crates/bridge/src/mir_to_compat.rs:1906 | flattenings along different axes are emitted as the same operation |
| Compat.StrategyBranches | crates/bridge/src/mir_to_compat.rs:761-803 | which source completes a target with zeros, by rank and zeros of the declared shape; the batch size is the operand's first dimension |
| Compat.UnsupportedTags | crates/bridge/src/mir_to_compat.rs:1769-1906 | under which tags flattenings, transposed convolutions and unlisted reductions are emitted, and which reductions are listed |
| Compat.ConstantCarries | crates/bridge/src/mir_to_compat.rs:1019-1049 | bytes, dtype, shape and name of an emitted constant, resolved or not |
| Compat.ElementSizes | crates/bridge/src/mir_to_compat.rs:2049-2060 | bytes per element of every dtype |
| AliasMap.BuildInputAliasMap | crates/bridge/src/mir_to_compat.rs:528-613 | the loop builds the map in which a later node overwrites an earlier one |
| AliasKeys.ProjectionAliases | crates/bridge/src/mir_to_compat.rs:548-580 | for every layer n, each alias of a query, key, value or up projection stands for the last linear of a weight `model.layers.<n>` with that pattern and without the excluded ones, and is no alias if there is none |
| AliasKeys.ProductAliases | crates/bridge/src/mir_to_compat.rs:588-608 | for every layer n, the aliases of scores and attention output stand for the last product named `attn_qk` and `attn_sv` whose id carries n |
| AliasKeys.ActivationAliases | crates/bridge/src/mir_to_compat.rs:582-603 | for every layer n, the aliases of softmax and activation stand for the last softmax named `attn_softmax` and the last SiLU named `mlp_silu` whose id carries n |
| AliasKeys.NoOtherAliases | crates/bridge/src/mir_to_compat.rs:542-613 | there are no other aliases than these and that of the embedding weight |
| AliasKeys.EmbeddingAlias | crates/bridge/src/mir_to_compat.rs:544-546 | the embedding alias stands for the embedding weight, by their names |
| AliasKeys.WeightIff | crates/bridge/src/mir_to_compat.rs:615-618 | a weight belongs to layer n exactly if it is `model.layers.` and a number that reads as n, up to its end or a dot |
| AliasKeys.IdIff | crates/bridge/src/mir_to_compat.rs:620-623 | an id carries n exactly if a number that reads as n follows its first `_layer_`, up to its end or an underscore |
| AliasMap.LayerIndexRecovered | crates/bridge/src/mir_to_compat.rs:620-623 | the layer number is read back from every id `<prefix>_layer_<n>_<suffix>` in which that marker is the first |
| AliasMap.AliasLayer | crates/bridge/src/mir_to_compat.rs:548-623 | every generated alias gives back its layer number |
| AliasMap.AliasNameInjective | crates/bridge/src/mir_to_compat.rs:548-610 | aliases of different rules or layers differ |
| AliasMap.EmbedIsKept | crates/bridge/src/mir_to_compat.rs:544-546 | no node overwrites the alias of the embedding weight |
| AliasMap.AliasesInjective | crates/bridge/src/mir_to_compat.rs:528-613 | with unique ids, none of them the embedding weight, no two aliases stand for the same node |
| ForwardShapes.InferNodeShapes | crates/bridge/src/mir_to_compat.rs:386-454 | the three loops compute the seeded and settled shape map, or are aborted at the first node whose rule is run and fails |
| ForwardShapes.SeedInputShapes | crates/bridge/src/mir_to_compat.rs:389-401 | seeds the shape of every input node, or the explicit one of an input without a node |
| ForwardShapes.SeedConstShapes | crates/bridge/src/mir_to_compat.rs:403-428 | seeds constants without a shape from the resolver, and unresolved scalars with one element |
| ForwardShapes.ForwardPass | crates/bridge/src/mir_to_compat.rs:430-454 | settles each node once, in order: kept, declared, or inferred; or is aborted at the first node whose rule is run and fails |
| ForwardShapes.ReachableMapsAgree | crates/bridge/src/mir_to_compat.rs:386-454 | on every map of the pass the two engines agree on every node up to the four guesses, except exactly for an elementwise node whose rule runs, reads an input explicitly given the empty shape and takes it differently |
| ForwardShapes.NoneEmptyIff | crates/bridge/src/mir_to_compat.rs:386-454 | no map of the pass holds an empty shape exactly if no input without a node is given one |
| ForwardShapes.EmptyIsExplicit | crates/bridge/src/mir_to_compat.rs:386-454 | the empty shapes in a map of the pass are exactly those given explicitly |
| ForwardShapes.RuleDepends | crates/bridge/src/shape_inference.rs:246-713 | a rule depends only on the shapes of its operands, and for a constant on its own |
| ForwardShapes.SettledIsFixed | crates/bridge/src/mir_to_compat.rs:430-454 | in any order, a node settled by its rule when no shape it reads is learned later has, in the final map, the shape the rule gives when run again there |
| ForwardShapes.SecondPassChangesNothing | crates/bridge/src/mir_to_compat.rs:430-454 | a second pass over the final map changes nothing |
| ForwardShapes.PassIsIdleIff | crates/bridge/src/mir_to_compat.rs:430-454 | on any map and in any order a pass from that map changes nothing exactly if no node without a shape would be given one |
| ForwardShapes.OutOfOrderCounterexample | crates/bridge/src/mir_to_compat.rs:430-454 | out of topological order a second pass may still learn a shape |
| EarlyShapes.RecordedIsFinalIff | crates/bridge/src/mir_to_compat.rs:430-454 | in any order, a node settled by its rule is recorded with the shape the rule gives on the final map exactly if the operands unknown in its turn make no difference, stated rule by rule |
| EarlyShapes.EarlyShapeCounterexample | crates/bridge/src/mir_to_compat.rs:430-454 | out of topological order a sum settled from one known operand keeps that shape, though a second pass is idle and the rule would now give a larger one |
| ShapeInference.EnginesAgreeIff | crates/bridge/src/shape_inference.rs:212-1235 | on every map a successful inference is what the total engine returns, and a failure its unknown shape except for four guesses, exactly unless an elementwise rule runs on empty shapes it takes differently: an empty operand against a zero dimension, or, for a selection, an empty shape whose place is taken by one that does not cover the others or that comes later |
| ShapeInference.EnginesAgree | crates/bridge/src/shape_inference.rs:212-1235 | in particular the engines agree unless an elementwise rule sees an empty shape |
| ShapeInference.EmptyShapeCounterexample | crates/bridge/src/shape_inference.rs:467-483 | with an empty shape in the map the engines may differ |
| ShapeInference.InputShapeExplicit | crates/bridge/src/shape_inference.rs:134-168 | the declared shape of an input, else a hint that is not empty, and never an empty shape |
| ShapeInference.BuildGatherShape | crates/bridge/src/shape_inference.rs:255-273 | the loop replaces the gathered dimension by the shape of the indices |
| ShapeInference.BuildConcatShape | crates/bridge/src/shape_inference.rs:446-465 | the loop sums the dimensions of the known operands along the axis |
| ShapeInference.BuildConvShape | crates/bridge/src/shape_inference.rs:1249-1326 | the loop yields batch, output channels and one dimension for each stride, at least one |
| ShapeInference.WindowCount | crates/bridge/src/shape_inference.rs:1305-1314 | the closed formula counts the window positions that fit |
| ShapeRules.ShapeOrder | crates/bridge/src/shape_inference.rs:212-246 | a declared shape counts first, then a hint that is not empty, then a guess by name, then the rule |
| ShapeRules.KeepingRule | crates/bridge/src/shape_inference.rs:254-535 | linears, norms, unary operations, selections, attentions, updates and identities keep the shape of that operand |
| ShapeRules.StatedRule | crates/bridge/src/shape_inference.rs:342-684 | reshapes, fills, state reads and constants state their shape, and an input marker is one row of the maximal length |
| ShapeRules.BinaryRule | crates/bridge/src/shape_inference.rs:292-306 | two known shapes are joined dimension by dimension if they can be, else the first counts; a single known one counts |
| ShapeRules.WhereRule | crates/bridge/src/shape_inference.rs:467-483 | three known shapes are joined in turn if they can be, else the first known one counts, the condition coming second |
| ShapeRules.MatMulRuleDims | crates/bridge/src/shape_inference.rs:309-341 | rows of the left operand, columns of the right one, joined batches above; the left shape if a rank is below 2 |
| ShapeRules.TransposeRule | crates/ir/src/shape_ops.rs:159-161 | dimension i is dimension perm[i] of the operand |
| ShapeRules.TransposeComposes | crates/ir/src/shape_ops.rs:159-161 | transposing twice is transposing by the composed permutation |
| ShapeRules.TransposeInverts | crates/ir/src/shape_ops.rs:159-161 | the inverse permutation restores the shape |
| ShapeRules.HeadsTransposed | crates/ir/src/shape_ops.rs:159-161 | 1 by 512 by 16 by 64 under 0, 2, 1, 3 is 1 by 16 by 512 by 64 |
| ShapeRules.SplitRule | crates/bridge/src/shape_inference.rs:536-546 | only the split dimension changes, to the whole quotient |
| ShapeRules.TopkRule | crates/bridge/src/shape_inference.rs:487-500 | only the chosen dimension changes, to k; a negative axis counts from the end, one out of range changes nothing |
| ShapeRules.ConcatRule | crates/bridge/src/shape_inference.rs:446-465 | only the dimension along the axis changes, to the sum over the known operands |
| ShapeRules.StackRule | crates/bridge/src/shape_inference.rs:604-617 | one dimension more, holding the number of operands, before those from the axis on |
| ShapeRules.GatherRule | crates/bridge/src/shape_inference.rs:255-273 | the dimensions of the indices stand in the place of the gathered one, the others in order around them |
| ShapeRules.TileRule | crates/ir/src/shape_ops.rs:91-102 | each dimension is multiplied by its repetition, missing ones of either being 1 |
| ShapeRules.PadRule | crates/ir/src/shape_ops.rs:287-300 | each dimension grows by the amount at its position and the one a rank later |
| ShapeRules.PadAddsUp | crates/ir/src/shape_ops.rs:287-300 | padding twice adds the amounts |
| ShapeRules.FlattenRule | crates/bridge/src/shape_inference.rs:688-697 | the dimensions before the axis stay, the others become their product |
| ShapeRules.ReduceRule | crates/ir/src/shape_ops.rs:67-89 | reduced dimensions become 1 or are dropped, the others keep their order |
| ShapeRules.SqueezeRule | crates/ir/src/shape_ops.rs:138-149 | squeezing distinct axes drops exactly their dimensions and keeps the order of the others |
| ShapeRules.ExpandRule | crates/ir/src/shape_ops.rs:117-128 | each distinct axis of the result holds 1, and without them the shape is the operand's |
| ShapeRules.SliceRule | crates/bridge/src/shape_inference.rs:548-583 | one dimension for each begin, in order, without those the mask squeezes |
| ShapeRules.SliceDimCountsIndices | crates/bridge/src/shape_inference.rs:548-566 | an inferred slice dimension is what lies between begin and end, and the number of selected indices exactly when nothing lies between them, or begin is not counted from the end, end lies within the dimension and the stride skips nothing |
| ShapeRules.ConvRule | crates/bridge/src/shape_inference.rs:1249-1326 | batch, output channels, and along each axis the number of windows whose taps all lie in the padded input, exactly when the first one fits a non-empty input or misses an empty one; kernel size, stride, dilation and padding read off the attributes |
| ShapeRules.DilatedExample | crates/bridge/src/shape_inference.rs:1309-1314 | a kernel of 3 with taps 2 apart fits 6 times into 10 elements |
| ShapeRules.FailureNames | crates/bridge/src/shape_inference.rs:735-1215 | a failure names its node and its cause: a guess, an operation without a rule, an undetermined linear or constant, or an operand whose shape is missing |
| ShapeInference.MatMulIgnoresTranspose | crates/bridge/src/shape_inference.rs:309-341 | the product shape is right exactly when nothing is to be transposed or the right operand is square |
| ShapeInference.TransposeCounterexample | crates/bridge/src/shape_inference.rs:309-341 | a transposed 4 by 3 right operand is inferred as if it were not transposed |
| ShapeInference.SliceCounterexample | crates/bridge/src/shape_inference.rs:548-566 | strides, begins counted from the end and ends past the dimension are each inferred too large |
| ShapeInference.LargeKernelCounterexample | crates/bridge/src/shape_inference.rs:1309-1314 | a kernel that fits nowhere still yields one output |
| ShapeInference.MatMulAssociates | crates/bridge/src/shape_inference.rs:309-341 | where a chain of products broadcasts from left to right, its shape does not depend on its grouping exactly when no zero and one are mixed before a larger batch dimension |
| ShapeInference.WhereOrderIrrelevant | crates/bridge/src/shape_inference.rs:467-483 | for all shapes, the order of the operands does not matter exactly when they broadcast together without mixing a zero and a one before a larger dimension, or, with an unknown shape, when the known ones are the same |
| ShapeOps.BroadcastShape | crates/ir/src/shape_ops.rs:39-52 | the loop computes the right-aligned broadcast, or nothing |
| ShapeOps.BroadcastDims | crates/ir/src/shape_ops.rs:39-52 | defined exactly when all right-aligned dimensions are compatible, and then the larger of each pair |
| ShapeOps.BroadcastCommutes | crates/ir/src/shape_ops.rs:39-52 | broadcasting is commutative, definedness included |
| ShapeOps.BroadcastIdentity | crates/ir/src/shape_ops.rs:39-52 | the empty shape is neutral exactly on positive shapes |
| ShapeOps.BroadcastAssociates | crates/ir/src/shape_ops.rs:39-52 | on positive shapes grouping and order do not matter, definedness included |
| ShapeOps.GroupingsAgree | crates/ir/src/shape_ops.rs:39-52 | for all shapes two groupings agree, definedness included, exactly when no defined one has broadcast a zero against a one where a larger dimension follows |
| ShapeOps.AllGroupingsAgree | crates/ir/src/shape_ops.rs:39-52 | the same for all three groupings |
| ShapeOps.BroadcastZeroCounterexample | crates/ir/src/shape_ops.rs:39-52 | a zero dimension breaks associativity |
| ShapeOps.BroadcastProjects | crates/ir/src/shape_ops.rs:39-52 | every output index projects into the bounds of both operands |
| ShapeOps.SortAxesSorts | crates/ir/src/shape_ops.rs:117-149 | sorting axes keeps their multiset |
| ShapeOps.ExpandSqueeze | crates/ir/src/shape_ops.rs:117-149 | squeezing the axes just inserted restores the shape exactly when they are positions of the output |
| ShapeOps.SqueezeIsReduce | crates/ir/src/shape_ops.rs:69-149 | squeezing distinct axes and reducing them without keeping dimensions give the same shape |
| ElementCounts.TransposeKeepsCount | crates/bridge/src/shape_inference.rs:343-349 | a permutation keeps the element count |
| ElementCounts.ExpandKeepsCount | crates/bridge/src/shape_inference.rs:397-405 | inserted dimensions keep the element count |
| ElementCounts.SqueezeKeepsCountIff | crates/bridge/src/shape_inference.rs:407-413 | for any axes, repeated ones included, a positive shape keeps its element count exactly when every removed dimension is 1 |
| ElementCounts.SqueezeUndoesKeepDims | crates/ir/src/shape_ops.rs:67-149 | reducing with dimensions kept and squeezing them gives the shape reduced without, and both have one element count |
| ElementCounts.TileMultipliesCount | crates/ir/src/shape_ops.rs:91-102 | tiling multiplies the element count by the repetitions, whatever the ranks |
| ElementCounts.FlattenKeepsCount | crates/bridge/src/shape_inference.rs:688-697 | flattening keeps the element count |
| RearrangingPaths.RearrangingKeepsCount | crates/bridge/src/shape_inference.rs:342-413 | what is emitted for any rearranging node has the element count of its operand; a reshape's target is the one the conversion gives it from its own and its operand's declared shape, branch by branch |
| RearrangingPaths.ChainKeepsCount | crates/bridge/src/shape_inference.rs:342-413 | through any chain of rearranging nodes, with reshape targets resolved from the declared shapes, the emitted element count is invariant |
| RearrangingPaths.PathKeepsCount | crates/bridge/src/mir_to_compat.rs:430-454 | along any path of rearranging nodes, settled by their rules or declared with the emitted shape, the element count in the final map is that of the path's first operand |
| RearrangingPaths.ReshapeRecordedAsEmitted | crates/bridge/src/mir_to_compat.rs:430-454 | the final map holds the emitted target of a reshape exactly if the target is concrete and no other shape is declared, or a declared shape stands in for its zeros |
| RearrangingPaths.RecordedZeroCounterexample | crates/bridge/src/shape_inference.rs:342 | for an operand of 3 by 4 and a target of 0 by 12 the map holds 0 by 12 while 1 by 12 is emitted |
| ElementCounts.ConcatAddsCounts | crates/bridge/src/shape_inference.rs:446-465 | concatenating shapes that agree off the axis adds their element counts |
| ElementCounts.ConcatOfUnknown | crates/bridge/src/shape_inference.rs:446-465 | operands of unknown shape count as nothing, so the total is right exactly if they hold no elements |
| ElementCounts.StackMultipliesCount | crates/bridge/src/shape_inference.rs:604-613 | stacking multiplies the element count by the number of operands |
| ElementCounts.GatherCount | crates/bridge/src/shape_inference.rs:255-273 | the count of a gather times the gathered dimension is the product of both counts |
| ElementCounts.ConcatUndoesSplit | crates/bridge/src/shape_inference.rs:446-546 | concatenating the parts of a dividing split restores the shape |
| ReshapeResolution.ResolveReshapeShape | crates/bridge/src/mir_to_compat.rs:852-997 | positional filling first, then the element count, then the batch size, for every target and input |
| ReshapeResolution.FillPositionally | crates/bridge/src/mir_to_compat.rs:863-876 | fills all zeros by position, or reports that one lies beyond the input's rank |
| ReshapeResolution.SpreadZeros | crates/bridge/src/mir_to_compat.rs:919-993 | several zeros become the batch size, ones, and what remains |
| ReshapeResolution.ResolutionKeepsTarget | crates/bridge/src/mir_to_compat.rs:852-997 | the rank and every non-zero dimension survive |
| ReshapeResolution.ResolutionZeroFree | crates/bridge/src/mir_to_compat.rs:852-997 | a target with zeros is completed exactly when positional filling matches the count or the non-zero product divides it, but for a batch size of 0 offered to several zeros |
| ReshapeResolution.ResolutionConservesElements | crates/bridge/src/mir_to_compat.rs:852-997 | the element count is conserved exactly when the target is completed and, with several zeros, the batch size divides the remainder |
| ReshapeResolution.SingleZeroUnique | crates/bridge/src/mir_to_compat.rs:907-918 | with a single zero the result is the only completion of that count |
| ReshapeResolution.ResolvedByPosition | crates/bridge/src/mir_to_compat.rs:866-882 | where copying by position has the right count, each zero becomes the input's dimension there |
| ReshapeResolution.ResolvedBySpreading | crates/bridge/src/mir_to_compat.rs:919-990 | else the first of several zeros becomes the batch size or 1, the last what remains, and those between 1 |
| ReshapeResolution.CastWraps | crates/bridge/src/mir_to_compat.rs:990-997 | the cast keeps a dimension modulo 2^32 in the signed range |
| ReshapeResolution.BatchCounterexample | crates/bridge/src/mir_to_compat.rs:945-950 | a batch size that does not divide yields 36 elements for 12 |
| ReshapeResolution.CastIsExact | crates/bridge/src/mir_to_compat.rs:996 | the cast to 32 bits is exact below 2^31 |
| ReshapeReading.DenotesIff | crates/bridge/src/mir_to_compat.rs:760-803 | a shape that fits all declarations is what a target with zeros means exactly if it copies the operand, or the declarations leave at most one zero for the count to settle, or nothing to share out |
| ReshapeReading.DenotesOne | crates/bridge/src/mir_to_compat.rs:760-803 | a target with zeros has at most one meaning |
| Shards.ParseInvertsPrint | crates/bridge/src/safetensors_resolver.rs:415-441 | parsing a printed shard name gives prefix and index back, for every prefix and every index that fits |
| Shards.ParsedNameIsPrinted | crates/bridge/src/safetensors_resolver.rs:415-441 | a name that parses is a printed name, up to leading zeros or a leading plus |
| Shards.WrittenNameParses | crates/bridge/src/safetensors_resolver.rs:304-328 | `<prefix>.shard_<n>.weight` is read as shard n of `<prefix>.weight` |
| Shards.LoadedFirst | crates/bridge/src/safetensors_resolver.rs:304-328 | a loaded tensor is found by its own name before that is read as a shard's |
| Shards.ShardOfLoaded | crates/bridge/src/safetensors_resolver.rs:304-328 | otherwise a shard's name leads to rows of its weight, if that is loaded |
| Shards.ShardRows | crates/bridge/src/safetensors_resolver.rs:336-403 | shard k exists exactly below the shard count and holds the rows after those of the shards before it |
| Shards.ShardsPartition | crates/bridge/src/safetensors_resolver.rs:336-403 | the rows of the shards add up to the vocabulary, and their bytes concatenate to the tensor exactly when it has a whole number of bytes per element |
| Shards.ShardCounts | crates/bridge/src/safetensors_resolver.rs:342-358 | one shard per row below 8 rows, otherwise 8 to 15, and 8 exactly when 8 divides |
| Shards.ShardNamesCoverWeight | crates/bridge/src/safetensors_resolver.rs:304-441 | looking up the printed shard names in turn gives the whole weight back |
| Half.RoundToHalfNearest | crates/bridge/src/safetensors_resolver.rs:487-490 | rounding gives the nearest binary16 pattern, ties to even, for every magnitude (section 4.3.1 of IEEE 754-2019) |
| Half.NearestEvenUnique | crates/bridge/src/safetensors_resolver.rs:487-490 | at most one pattern is nearest, ties to even |
| Half.HalfValueFields | crates/bridge/src/safetensors_resolver.rs:487-490 | the value of a pattern from its exponent and fraction fields (section 3.4 of IEEE 754-2019) |
| Half.RoundExact | crates/bridge/src/safetensors_resolver.rs:487-490 | representable values round to themselves |
| Narrowing.F16FromF32Correct | crates/bridge/src/safetensors_resolver.rs:465-467 | the conversion is correctly rounded for every finite bit pattern, and keeps signs, infinities and NaN |
| Narrowing.ConvertF32ToFp16 | crates/bridge/src/safetensors_resolver.rs:453-471 | element i of the output is the correctly rounded element i of the input, for every buffer |
| Narrowing.ConvertBf16ToFp16 | crates/bridge/src/safetensors_resolver.rs:478-494 | element i of the output is the correctly rounded bfloat16 element i of the input, for every buffer |
| Narrowing.NarrowingUnique | crates/bridge/src/safetensors_resolver.rs:453-494 | what narrowing must give is determined for every number |
| Narrowing.FieldsAre | crates/bridge/src/safetensors_resolver.rs:453-494 | sign, exponent, fraction and significand are the fields of the 32 bits (section 3.4 of IEEE 754-2019) |
| Narrowing.FractionIsValue | crates/bridge/src/safetensors_resolver.rs:453-494 | the fraction that is rounded is the number's value |
| Narrowing.Bf16Lossless | crates/bridge/src/safetensors_resolver.rs:478-494 | bfloat16 numbers with unbiased exponent from -14 to 15 keep their value exactly |
| Narrowing.Bf16Overflows | crates/bridge/src/safetensors_resolver.rs:478-494 | bfloat16 numbers of larger exponent become infinite |
| StaticTables.StaticTableResolver.constructor | crates/bridge/src/static_table_resolver.rs:103-105 | a new resolver has no table cached |
| StaticTables.StaticTableResolver.EnsureTablesComputed | crates/bridge/src/static_table_resolver.rs:119-262 | afterwards the cache holds exactly the tables of the names requested so far; a repeated request changes nothing |
| StaticTables.StaticTableResolver.ComputeRope | crates/bridge/src/static_table_resolver.rs:130-167 | adds the sine and cosine tables as defined |
| StaticTables.StaticTableResolver.ComputeQuadratic | crates/bridge/src/static_table_resolver.rs:180-207 | adds identity and mask up to 8192 positions, nothing above |
| StaticTables.StaticTableResolver.ComputePositions | crates/bridge/src/static_table_resolver.rs:213-227 | adds both position tables as defined |
| StaticTables.StaticTableResolver.Insert | crates/bridge/src/static_table_resolver.rs:231-261 | one insertion adds one table and disturbs none |
| StaticTables.StaticTableResolver.Resolve | crates/bridge/src/static_table_resolver.rs:291-306 | answers exactly for cached tables and scalars, tables first |
| StaticTables.ChainedResolver.PrecomputeTables | crates/bridge/src/static_table_resolver.rs:330-334 | any run of requests leaves exactly the tables of the names requested |
| StaticTables.ChainedResolver.Resolve | crates/bridge/src/static_table_resolver.rs:348-355 | falls back exactly when neither the cache nor the scalar parser answers |
| StaticTables.ResolvesTables | crates/bridge/src/static_table_resolver.rs:119-306 | a table is cached exactly when its name was requested and its size allows it, and then resolves to its definition |
| TablePaths.SinePath | crates/bridge/src/static_table_resolver.rs:130-234 | once requested, the path ending in `sin_tab` holds sin(position, frequency of the column), with shape and dtype |
| TablePaths.CosinePath | crates/bridge/src/static_table_resolver.rs:130-238 | the same for `cos_tab` |
| TablePaths.EyePath | crates/bridge/src/static_table_resolver.rs:187-247 | up to 8192 positions `eye_tab` holds 1.0 on the diagonal and 0.0 elsewhere, above that nothing |
| TablePaths.MaskPath | crates/bridge/src/static_table_resolver.rs:197-252 | up to 8192 positions row r of `mask_tab` holds 0.0 in its last r + 1 columns and minus infinity before |
| TablePaths.ArangePath | crates/bridge/src/static_table_resolver.rs:213-256 | `arange_tab` counts in 32-bit words |
| TablePaths.HalfArangePath | crates/bridge/src/static_table_resolver.rs:223-261 | `arange_fp16_tab` counts in half precision, correctly rounded |
| TablePaths.ScalarPaths | crates/bridge/src/static_table_resolver.rs:265-288 | scalar paths resolve to one element of the written precision, or to nothing if the text is no number |
| TablePaths.Patterns | crates/bridge/src/static_table_resolver.rs:187-196 | the bit patterns of 1.0, 0.0 and minus infinity |
| StaticTables.KeyInjective | crates/bridge/src/static_table_resolver.rs:231-261 | keys of different names or tables never collide |
| StaticTables.CacheDetermined | crates/bridge/src/static_table_resolver.rs:119-262 | the cache is determined by what was requested, not by order or repetition |
| StaticTables.InsertedHolds | crates/bridge/src/static_table_resolver.rs:231-261 | inserting a table keeps every other table in place |
| StaticTables.RopeHalvesRepeat | crates/bridge/src/static_table_resolver.rs:143-167 | for even dimensions the second half of each sine and cosine row repeats the first, at its byte offset |
| StaticTables.MaskRows | crates/bridge/src/static_table_resolver.rs:197-206 | column c of row r is unmasked exactly when r + c + 1 reaches the length, so row r has r + 1 such columns and rows are nested |
| StaticTables.EyeRows | crates/bridge/src/static_table_resolver.rs:187-193 | the identity table holds one on the diagonal and zero elsewhere |
| StaticTables.ArangeEntries | crates/bridge/src/static_table_resolver.rs:213-227 | entry i of the position tables is i, in 32 bits and rounded to binary16 |
| StaticTables.PositionsMonotone | crates/bridge/src/static_table_resolver.rs:223-227 | rounded positions are monotone, for every length |
| StaticTables.PositionExact | crates/bridge/src/static_table_resolver.rs:223-227 | positions up to 2048 are exact |
| StaticTables.PositionsCollide | crates/bridge/src/static_table_resolver.rs:223-227 | positions 2048 and 2049 share a pattern |
| StaticTables.PositionsDistinct | crates/bridge/src/static_table_resolver.rs:223-227 | positions are pairwise distinct exactly up to a length of 2049 |
| StaticTables.FillHalfRows | crates/bridge/src/static_table_resolver.rs:150-206 | the nested loops fill the buffer row by row |
| StaticTables.FillHalfRow | crates/bridge/src/static_table_resolver.rs:223-227 | the loop fills one row |
| StaticTables.FillWords | crates/bridge/src/static_table_resolver.rs:213-216 | the loop fills the 32-bit positions |
| SsaChecker.PreEmitVerification | python/verify.py:1230-1252 | the issues reported are exactly the names produced twice and the inputs that may not be read; none are reported exactly when the operations are clean |
| SsaChecker.DanglingInputs | python/verify.py:1246-1250 | the inner loop reports exactly the inputs that are not defined, given or exempt |
| SsaChecker.NoIssuesIffClean | python/verify.py:1218-1252 | an exact report is empty exactly when outputs are distinct and every input may be read |
| SsaChecker.DanglingWrittenOut | python/verify.py:1246-1250 | an input is reported exactly if neither its operation nor an earlier one produces it, it is no graph input, and it begins neither with `const_` nor with `weight_` |
| SsaChecker.DuplicateWrittenOut | python/verify.py:1239-1244 | a name is reported as duplicate exactly if two operations produce it |
| SsaChecker.SelfReadPasses | python/verify.py:1239-1250 | an operation that reads only its own output passes |
| SsaChecker.CleanIsStrictExceptSelfReads | python/verify.py:1239-1250 | passing means that inputs come from earlier operations exactly when operations reading their own output are covered otherwise |
| FallbackGraph.BuildFallbackGraph | python/trace_model.py:1472-1665 | for every layer count, norm and model class the loop builds the graph defined layer by layer, each residual being the output of the block before |
| FallbackGraph.AppendLayer | python/trace_model.py:1535-1608 | one pass of the loop appends one layer and moves to its output |
| FallbackGraph.AppendTail | python/trace_model.py:1610-1665 | the final norm, last-token slice, head and output follow the layers |
| FallbackGraph.NodeCount | python/trace_model.py:1472-1665 | the closed form of the number of nodes |
| FallbackGraph.LayerAt | python/trace_model.py:1535-1608 | layer i stands at its position in the graph |
| FallbackGraph.LayerIdInjective | python/trace_model.py:1535-1608 | ids of different layers or parts differ |
| FallbackGraph.GraphOrdered | python/trace_model.py:1472-1665 | ids are distinct and every input is emitted earlier |
| FallbackWiring.HeadWiring | python/trace_model.py:1472-1518 | the embedding reads the model's or the decoder's ids, found by id |
| FallbackWiring.LayerWiring | python/trace_model.py:1535-1608 | what norms, attention and mlp of every layer read, found by id, residuals included |
| FallbackWiring.TailWiring | python/trace_model.py:1610-1665 | what final norm, last-token slice, head and output read, found by id |
| FallbackGraph.OrderedIsClean | python/verify.py:1218-1252 | a graph in such an order passes the check, even in its strict reading |
| FallbackGraph.CheckFallbackGraph | python/trace_model.py:1472-1665 | the check finds nothing in a graph the generator built |
| StructureComparison.CompareMirVsStructure | python/model_structure.py:238-288 | for every name matched plus deficit is expected and matched plus surplus is actual, never both deficit and surplus; every row states both counts; the totals are sizes of multisets and the score is their ratio |
| StructureComparison.CompareCounts | python/model_structure.py:248-274 | the loop over the names sorts every count into the three lists |
| StructureComparison.TotalIsSize | python/model_structure.py:276-287 | summing counts over distinct names gives the size of the multiset |
| StructureComparison.FullScore | python/model_structure.py:276-279 | the score is 1 exactly when something was expected and all of it was found |

## Left out

- Files, the HuggingFace cache, safetensors decoding, packaging, Core ML and torch calls, logging, command line: I/O; a resolver is a function from names to tensors.
- One-to-one field copying between operation types: operations that every modelled component treats alike share one constructor whose tag stands for the attributes carried over. Attributes that the conversion drops are modelled as one string: the epsilon of a logarithm (`crates/bridge/src/mir_to_compat.rs:1502-1504`), the pad types of a pool after the first (`crates/bridge/src/mir_to_compat.rs:1532`), and those of the operations without a counterpart, emitted under their tag alone (`crates/bridge/src/mir_to_compat.rs:1781-2010`); for the seven unlisted reductions (square sum, L1 and L2 norm, log sums, argmax, argmin) they are the axes and `keep_dims`.
- Casts of slice bounds, pads, strides and axes to 32 or 64 bits, and quantisation metadata of convolutions; the cast of reshape targets is modelled.
- Dtypes without a compat counterpart (Bool, Fp64, Int8, Int16), which the source maps to others.
- Wrap-around of `usize` arithmetic: naturals are used; a parsed shard index times the shard size does not overflow in the model.
- Negative pad amounts, which the source casts to `usize`.
- Values of sine, cosine and inverse frequency: parameters of the table configuration; layout, caching and rounding of integers are modelled.
- NaN payloads: a NaN stays a NaN with its sign; which one is not specified.
- Parsing of decimal fractions in scalar constants: a parameter of the resolver.
- Iteration order of hash maps: nothing modelled depends on it.
- Name translation tables and rounding to four places of the fidelity score; the exact ratio is modelled.
- Payloads of the fallback graph's operations (sizes, epsilons, module paths).
- Shape inference's `resolve_reshape_zeros`, which the bridge does not call on this path.
- Meaning.MeaningPreserved: asks that every operation carries over (`Meaning.ConvertKeepsAction` says which do) and that no wanted weight is replaced by a placeholder, which then has no value of its own; that nodes follow what they read is asked too, without a theorem on all graphs out of order.
- ShapeRules.SliceDimCountsIndices: one axis at a time and positive strides; which indices a negative stride selects between its masks is defined by Core ML and nowhere in the repository.
