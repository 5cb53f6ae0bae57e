# Bolt core, modelled and verified in Dafny

Bolt is a vectorised query engine. This project models the parts of it whose behaviour spans
several functions or a whole run of concurrent steps, and proves what they promise:

- **Typed expressions** (`Types`, `Expressions`, `Substitution`, `SubstitutionExact`,
  `ConstantValues`, `ConstantHash`, `ExprEquality`, `ExprMeaning`, `ExprHashExact`): column rewriting
  preserves meaning exactly when a checkable condition holds; constant comparison is identity of
  decoded values in every vector encoding; expression equality is an equivalence that never
  identifies trees of different meaning, and equal expressions hash equally exactly when the kinds
  of their types agree throughout.
- **Serialisation** (`ExprSerde`, `ExprRoundTrip`, `PlanNodes`, `PlanSchemas`, `PlanSerde`,
  `PlanRoundTrip`, `PlanEquality`, `PlanWitnesses`, `PlanOfExprs`): expression trees and plans come
  back equal from their serialised form exactly when a condition on their fields and literals holds;
  what the plan constructors accept, and the schemas they compute, column by column.
- **Companion functions** (`TypeSignatures`, `NormalForm`, `NormalFormExact`, `SuffixNames`,
  `Companions`, `CompanionRegistry`): type normal forms, resolvability, deduplication, name suffixes, and the
  registries that hold the result.
- **Concurrency protocols** (`Arbitration`, `AsyncGuards`): state machines over the steps between
  lock operations, with invariants over every interleaving, next to the classes whose methods are
  those steps.
- **Buffers** (`BufferHeap`, `AlignedBuffers`, `NonPodBuffers`, `StringHolder`): reference counts,
  slices, reallocation, object lifetimes, string ownership.
- **Aggregation state** (`AggregationState`, `ExtractFunction`): null bits, pushdown hooks, and the
  extract companion's in-place compaction.

`Sums`, `Sequences` and `Multiples` hold facts about finite sums, sequences and divisibility that
several modules share.

## What turned out to need a condition

These promises fail on some inputs. For each, a lemma gives such an input, and another gives the
exact condition under which the promise holds:

- Rewriting column names changes meaning when a replacement is captured by a lambda parameter, or
  when a field of the whole input row is mapped to something other than a column
  (`SubstitutionExact.SafeIsExact`).
- A concrete type called `T0` is taken for a renamed variable by the normal form
  (`NormalForm.FreshLeafBreaksNormalForm`). Equal normal forms mean a renaming exactly when the
  variables are also in the same places (`NormalForm.RenamingIffEqualNormalForms`), and for one type
  exactly when it has no such leaf or its normal form has such leaves out of order
  (`NormalFormExact.NormalFormDecidesIff`).
- Suffixes of decimal types ignore precision and scale, and a leaf type called like a constructor
  makes suffixes ambiguous (`SuffixNames.DecimalSuffixesCollide`, `SuffixNames.KeywordLeafCollides`,
  `CompanionRegistry.DecimalPairCollides`); reported companions are found exactly when the suffixes
  of their groups differ; for return types whose leaf names hold no underscore and are no keyword of
  the encoding, that is when they differ in more than letter case, row field names and decimal
  parameters (`CompanionRegistry.ReportedFoundIffSuffixesDistinct`,
  `CompanionRegistry.ReportedFoundIffReturnTypesDiffer`).
- Two reclaims that overlap make an arbitration check fail (`Arbitration.OverlappingReclaimsFail`);
  the checks hold exactly in runs whose reclaims do not overlap
  (`Arbitration.ChecksHoldIffSerialised`).
- A preload guard created with a negative size, or destroyed with a negative total, puts the
  counters out for good (`AsyncGuards.NegativeCreationLeaks`, `AsyncGuards.NegativeTotalUnbalances`,
  and exactly when: `AsyncGuards.BalancedIffClean`).
- Growing a buffer with a fill value overwrites the last bytes when the old size is not a whole
  number of elements, although its comment says that the content is kept up to the old size;
  debug builds refuse such a call, so this is what a release build does
  (`AlignedBuffers.GrowthKeepsOldBytesIffAligned`).
- A shared buffer can be shrunk below the end of one of its slices (`BufferHeap.ShrinkUnderSlice`);
  slices stay inside their buffer exactly when they fit the new size, as they do whenever nothing
  else holds the buffer (`BufferHeap.ResizeValidIff`, `BufferHeap.Buffers.SetSize`).
- `setAllNulls` miscounts a row listed twice or null already (`AggregationState.RepeatedRowMiscounts`)
  and is right exactly when its rows are distinct and not yet null
  (`AggregationState.Aggregate.SetAllNulls`).
- A 128-bit literal outside the 64-bit range comes back from serialisation as another literal
  (`ExprRoundTrip.HugeLiteralChanges`, `ExprRoundTrip.RoundTripEqualIffLiteralsFit`).
- A plan loses the fields that serialisation leaves out, and a join of the deprecated null-aware
  anti kind cannot be serialised at all (`PlanOfExprs.TypedPlansLost`); a plan that can be serialised
  comes back equal exactly when those fields hold their defaults and all literals fit
  (`PlanOfExprs.TypedPlanRoundTrip`, `PlanRoundTrip.SerializesIffNamed`).
- Input and dereference nodes compare equal whatever their types, and yet hashes follow the types, so
  that equal trees can hash differently (`ExprHashExact.BigintAndDoubleInputsDiffer`). Equal trees hash
  equally under all hash functions exactly when the kinds of the types of corresponding subtrees agree
  (`ExprHashExact.AlwaysHashEquallyIffSameKinds`, and for one mixing function that tells its arguments
  apart `ExprHashExact.HashEquallyIffSameKinds`); over one row type they do
  (`ExprHashExact.EqualTreesHashEqually`).

## Contracts taken from elsewhere

Code outside the model enters as parameters: the scalar hash functions and the vector hash of leaf
values (`ConstantHash.Hashing`), the memory pool's allocation sizes and failures
(`AlignedBuffers.Pool`), the vector codec (what a round trip needs of it is
`ExprRoundTrip.ConstantsKept`, which `ExprRoundTrip.Lossless` gives for every tree; window calls and
bounds are read by a codec without a memory pool), the interpretation of functions,
casts and lambdas (`Substitution.Interp`), and the wrapped aggregate of the extract companion
(`ExtractFunction.Aggregate`). Two vectors are taken to be the same object when their addresses are equal.

## Model

| member | source | states |
|---|---|---|
| `Types.EquivalentTransitive` | bolt/type/Type.cpp:452-469 | type equivalence, which ignores row field names, is transitive through every nesting |
| `Types.EquivalentSymmetric` | bolt/type/Type.cpp:579-589 | type equivalence is symmetric |
| `Types.EquivalentSameHashKind` | bolt/type/Type.cpp:555-561 | equivalent types have equal kind hashes |
| `Types.EquivalentIffErased` | bolt/type/Type.cpp:452-469 | types are equivalent exactly when they are the same once all row field names are erased |
| `Types.TypeEqIffErasedBelow` | bolt/type/Type.cpp:471-490 | types are equal exactly when they are the same once the field names below the outermost level are erased |
| `Types.ComputeHashKind` | bolt/type/Type.cpp:555-561 | the loop over children computes the recursive kind hash |
| `ConstantValues.EqualConstantValuesIffSameValue` | bolt/core/Expressions.cpp:140-245 | for vectors of one type in any mix of flat, constant and dictionary encodings, comparison holds exactly when the decoded values are identical: float bits, nulls, map entry order and missing children included |
| `ConstantValues.EqualArraysIffSameValue` | bolt/core/Expressions.cpp:204-226 | the leaf-element shortcut for arrays agrees with comparing elements one by one |
| `ConstantValues.EqualMapsIffSameValue` | bolt/core/Expressions.cpp:227-241 | maps are equal exactly when keys and values agree entry by entry in order |
| `ConstantValues.EqualRowsIffSameValue` | bolt/core/Expressions.cpp:187-203 | rows are equal exactly when every field is |
| `ConstantValues.EqualLeafIsIdentity` | bolt/core/Expressions.cpp:242-243 | on leaf types other than floating point the vector's own comparison is identity of values |
| `ConstantValues.SqlEqualIffSameNumber` | bolt/vector/SimpleVector.h:378-390 | on REAL and DOUBLE words the vector comparison holds exactly when both stand for one number, with one zero and one NaN |
| `ConstantValues.SqlEqualityIgnoresBits` | bolt/core/Expressions.cpp:138-139 | the vector comparison takes zeros of either sign, and any two NaNs, for equal although their bits differ, so float bits have to be compared |
| `ConstantHash.HashDependsOnlyOnValue` | bolt/core/Expressions.cpp:80-136 | equal decoded values hash equally whatever their encodings, offsets and equivalent types |
| `ConstantHash.NeedsHashUpToEquivalence` | bolt/core/Expressions.cpp:61-78 | whether a type needs the value hash does not depend on field names |
| `ConstantValues.NeedsHashIffFloatOrMapInside` | bolt/core/Expressions.cpp:61-78 | a type needs the value hash exactly when a floating-point or map type is somewhere inside it |
| `ConstantHash.ComputeHashConstantValue` | bolt/core/Expressions.cpp:80-136 | the dispatch on nulls, rows, arrays, maps and leaves, with its loops, computes the recursive hash |
| `ConstantHash.ComputeHashElements` | bolt/core/Expressions.cpp:86-99 | the loop over elements, with the choice of hash made once before it, computes the running hash that the recursive definition gives |
| `ConstantHash.ComputeHashFields` | bolt/core/Expressions.cpp:107-118 | the loop over row fields computes the running hash of the recursive definition |
| `Expressions.RewriteInputs` | bolt/core/ITypedExpr.h:133-141 | rewriting a list succeeds with the rewriting of each element, or fails because one of them does |
| `Expressions.RewriteInputsRecursive` | bolt/core/ITypedExpr.h:133-141 | the loop over inputs succeeds exactly when the recursive definition does, with the same list |
| `Expressions.RewriteSucceedsIffRewritable` | bolt/core/Expressions.h:407-414 | rewriting fails exactly when a lambda rebinds a mapped name or a dereference ends up over the bare input row |
| `Expressions.LambdaFailsIff` | bolt/core/Expressions.h:547-557 | rewriting a lambda fails exactly when one of its parameter names is mapped or its body fails, and otherwise keeps the parameters |
| `Expressions.FreshMappingSucceeds` | bolt/core/Expressions.h:547-557 | a mapping that avoids all lambda parameters of a tree and maps to no bare input row always succeeds |
| `Expressions.RewritePreservesType` | bolt/core/Expressions.h:464-469 | rewriting builds well-formed trees, and keeps the type when replacements have the types of the columns they replace |
| `Substitution.SubstitutionPreservesMeaning` | bolt/core/Expressions.h:300-328 | the rewritten tree evaluates, in any environment and interpretation, to what the original does with each mapped column bound to its replacement's value |
| `Substitution.SubstitutionUnderBinders` | bolt/core/Expressions.h:547-557 | the same below any number of lambdas whose parameters shadow columns |
| `Substitution.EvalReadsOnly` | bolt/core/ITypedExpr.h:76-83 | an expression's value depends only on the columns it reads |
| `Substitution.RewriteToInput` | bolt/core/Expressions.h:300-328 | when a rewritten tree is the bare input row: it was one, or a column mapped to one |
| `SubstitutionExact.PreservedOnlyIfSafe` | bolt/core/Expressions.h:300-328 | a rewriting that preserves the value of the tree over distinct atoms satisfies the safety condition |
| `SubstitutionExact.SafeIsExact` | bolt/core/Expressions.h:300-328 | a successful rewriting preserves meaning if and only if no replacement is captured by a lambda parameter, no bare input row comes in, and names over the input row map to columns |
| `SubstitutionExact.CaptureChangesMeaning` | bolt/core/Expressions.h:547-557 | mapping a to p turns the lambda p -> a into p -> p without an error |
| `SubstitutionExact.MappedFieldOverInputIsKept` | bolt/core/Expressions.h:300-328 | a field of the input row mapped to a constant is left as it was |
| `ExprEquality.ConstantEqIffSameValue` | bolt/core/Expressions.cpp:312-336 | constants are equal exactly when types match, both are vectors or both literals, and values are identical |
| `ExprEquality.ExprEqReflexive` | bolt/core/Expressions.h:250-263 | every expression equals itself |
| `ExprEquality.ExprEqSymmetric` | bolt/core/Expressions.h:356-369 | expression equality is symmetric |
| `ExprEquality.ExprEqTransitive` | bolt/core/Expressions.h:498-508 | expression equality is transitive |
| `ExprMeaning.ExprEqIffSameKey` | bolt/core/Expressions.h:577-582 | expressions are equal exactly when their classes, names, indices, flags, lambda parameters, constants and inputs are, and their types up to field names below the outermost level (none on inputs and dereferences) |
| `ExprMeaning.EqualTreesMeanTheSame` | bolt/core/Expressions.h:250-263 | equal expressions evaluate to the same value in every environment, under every interpretation that looks at types only up to such field names and at constants only by their values |
| `ExprMeaning.EqualLambdasMeanTheSame` | bolt/core/Expressions.h:577-582 | equal lambdas are the same function: their parameters bind the same names in the same order |
| `ExprEquality.ComputeHash` | bolt/core/ITypedExpr.h:89-95 | the loop over inputs computes the recursive hash |
| `ExprEquality.EqualTreesHaveEquivalentTypes` | bolt/core/Expressions.h:434-444 | over one input row type equal trees have equivalent types, although dereference and input equality compare none |
| `ExprHashExact.SameKindsHashEqually` | bolt/core/ITypedExpr.h:89-95 | equal trees whose subtrees have types of the same kinds have equal hashes, for every hash that does not see vector encodings |
| `ExprHashExact.HashEquallyIffSameKinds` | bolt/core/ITypedExpr.h:89-95 | under a mixing function that tells its argument pairs apart, equal trees hash equally if and only if the kind hashes of their types agree at the root, at lambda bodies and at all corresponding inputs |
| `ExprHashExact.AlwaysHashEquallyIffSameKinds` | bolt/core/ITypedExpr.h:89-95 | equal trees hash equally whatever the hash functions if and only if those kinds agree |
| `ExprHashExact.HashSeesEveryPart` | bolt/core/ITypedExpr.h:89-95 | under mixing and text hashes that tell their arguments apart, equal hashes mean equal type kinds, equal hashes of all inputs in order, and equal names, indices, flags, bodies and literal hashes |
| `ExprHashExact.WellTypedSameKinds` | bolt/core/Expressions.h:434-444 | equal trees over one input row type have the same kinds throughout |
| `ExprHashExact.EqualTreesHashEqually` | bolt/core/ITypedExpr.h:89-95 | so over one input row type equal trees have equal hashes |
| `ExprHashExact.EqualConstantsHashEqually` | bolt/core/Expressions.cpp:290-310 | equal constants have equal local hashes |
| `ExprHashExact.BigintAndDoubleInputsDiffer` | bolt/core/Expressions.h:39-60 | under any mixing that tells its first arguments apart, a BIGINT and a DOUBLE input are equal and hash differently |
| `ExprSerde.ToInt64` | bolt/type/Variant.cpp:570-573 | the 64-bit form of an integer is that integer exactly inside the 64-bit range |
| `ExprSerde.SerializeInputs` | bolt/core/Expressions.cpp:248-263 | the loop over inputs writes each input's own object in order |
| `ExprSerde.CreateAfterSerialize` | bolt/core/Expressions.cpp:265-476 | create accepts everything serialize writes for a well-formed tree and returns the same nodes, types, names and flags over the restored constants |
| `ExprSerde.CreateConcat` | bolt/core/Expressions.cpp:435-446 | a row constructor recomputes the type it had from the restored inputs |
| `ExprSerde.CreateObeysConstructors` | bolt/core/Expressions.cpp:373-476 | whatever create accepts is a well-formed tree with as many inputs as the object lists |
| `ExprRoundTrip.RoundTripEqualIffLiteralsFit` | bolt/core/Expressions.cpp:248-476 | create(serialize(e)) exists for every well-formed tree whose vector constants come back, and equals e if and only if every 128-bit literal fits 64 bits |
| `ExprRoundTrip.LosslessRoundTrip` | bolt/core/Expressions.cpp:248-476 | with a lossless vector codec this holds of every well-formed tree |
| `ExprRoundTrip.RestoredConstantEqual` | bolt/core/Expressions.cpp:338-371 | a restored vector constant equals the saved one, and a restored literal does exactly when it fits |
| `ExprRoundTrip.HugeLiteralChanges` | bolt/type/Variant.cpp:683-684 | the literal 2^63 comes back as -2^63 |
| `PlanNodes.ComputeUnnestType` | bolt/core/PlanNode.cpp:893-926 | the constructor's loop with its running name index gives the output schema of the recursive definition, or fails with it |
| `PlanNodes.UnnestStep` | bolt/core/PlanNode.cpp:899-916 | one more variable adds an array's element column, or a map's key column and then its value column, and no schema exists with any other type |
| `PlanSchemas.UnnestSchema` | bolt/core/PlanNode.cpp:878-926 | an unnest node's schema exists exactly when all variables are arrays or maps and there are names enough; then it is, column by column, the replicated columns, the element or key and value columns under the next names, and the BIGINT ordinality |
| `PlanSchemas.CheckUniqueKeys` | bolt/core/PlanNode.cpp:1532-1545 | the two loops with their set of seen names accept exactly keys that are all different |
| `PlanSchemas.BuildWindow` | bolt/core/PlanNode.cpp:1501-1560 | the window constructor's checks in order accept what its definition accepts, with the same node |
| `PlanSchemas.WindowSchema` | bolt/core/PlanNode.cpp:1452-1469 | the schema is the input's followed by one column per function, with its name and the type of its call; all other fields are the given ones |
| `PlanSchemas.BuildTopNRowNumber` | bolt/core/PlanNode.cpp:1870-1912 | the same of the top-n row-number constructor |
| `PlanSchemas.RowNumberSchema` | bolt/core/PlanNode.cpp:1780-1803 | with a row-number name the schema is the input's and one column of that name, otherwise the input's |
| `PlanSchemas.JoinAcceptedIff` | bolt/core/PlanNode.cpp:990-1058 | a join is accepted exactly when it has as many keys on both sides, at least one, that are columns there of the same kinds, and each output column is of exactly one side that its join kind shows, but for a last boolean match column of neither side |
| `PlanSchemas.JoinClassesAccept` | bolt/core/PlanNode.h:1725-1737 | what hash, merge and nested-loop joins accept beyond that |
| `PlanSchemas.JoinsHoldArguments` | bolt/core/PlanNode.cpp:974-989 | an accepted join of any class keeps kind, keys of either side, filter, flags and schema as given |
| `PlanSchemas.FilterAndProjectAccept` | bolt/core/PlanNode.h:397-403 | a filter is accepted exactly when it is boolean and passes its input's columns on; a project exactly when there are as many names as expressions, with one column for each |
| `PlanSerde.CopyNames` | bolt/core/PlanNode.cpp:941-945 | the loop copies exactly the names between the two positions |
| `PlanRoundTrip.UnnestNamesRecovered` | bolt/core/PlanNode.cpp:931-951 | the slice of the output schema after the replicated columns, less the ordinality column, is the list of names the constructor used |
| `PlanRoundTrip.UnnestRebuilt` | bolt/core/PlanNode.cpp:954-972 | an unnest node comes back with its schema |
| `PlanRoundTrip.WindowMadeAgain` | bolt/core/PlanNode.cpp:1684-1706 | the columns after the input's are the window names, and the constructor's checks pass again |
| `PlanRoundTrip.WindowRebuilt` | bolt/core/PlanNode.cpp:1708-1735 | a window node comes back with its keys, frames, functions and schema |
| `PlanRoundTrip.RowNumberNameRecovered` | bolt/core/PlanNode.cpp:1834-1846 | the schema grew exactly when a row-number name was given, and its last column has that name |
| `PlanRoundTrip.RowNumberRebuilt` | bolt/core/PlanNode.cpp:1848-1869 | a row-number node comes back with its limit and schema |
| `PlanRoundTrip.TopNRowNumberRebuilt` | bolt/core/PlanNode.cpp:1929-1964 | a top-n row-number node comes back with its keys, orders, limit and schema |
| `PlanRoundTrip.JoinChecksBack` | bolt/core/PlanNode.cpp:974-1059 | the join constructor's checks pass again on the restored keys |
| `PlanRoundTrip.HashJoinRebuilt` | bolt/core/PlanNode.cpp:1121-1153 | a hash join comes back with its keys, filter, flag and schema |
| `PlanRoundTrip.MergeJoinRebuilt` | bolt/core/PlanNode.cpp:1179-1223 | a merge join comes back with its keys, filter and schema |
| `PlanRoundTrip.NodeRebuilt` | bolt/core/PlanNode.cpp:784-804 | every modelled node that a constructor built is rebuilt by create from what serialize wrote |
| `PlanRoundTrip.SerializesIffNamed` | bolt/core/PlanNode.cpp:1087-1112 | serialize throws exactly on plans with a join of the deprecated null-aware anti kind |
| `PlanRoundTrip.CreateAfterSerialize` | bolt/core/PlanNode.cpp:2573-2617 | whole plans come back node by node with the same output schemas, over restored expressions |
| `PlanEquality.NodeBackEqualIff` | bolt/core/PlanNode.cpp:784-804 | a node comes back equal, up to an equality of expressions, if and only if its unserialised fields hold their defaults and each of its expressions comes back equal |
| `PlanEquality.PlanBackEqualIff` | bolt/core/PlanNode.cpp:2573-2617 | the same for every node of a plan |
| `PlanEquality.RoundTripEqualIff` | bolt/core/PlanNode.cpp:2573-2617 | create(serialize(p)) exists, has the output schema of p, and equals p if and only if defaults hold and all expressions come back equal |
| `PlanWitnesses.TopNumIsLost` | bolt/core/PlanNode.cpp:1684-1735 | a window comes back with no following top-n whatever its number was |
| `PlanWitnesses.CacheIsLost` | bolt/core/PlanNode.cpp:1121-1153 | a hash join comes back with its cache settings off and without its reusable hash table |
| `PlanWitnesses.NullAwareAntiCannotBeWritten` | bolt/core/PlanNode.cpp:1087-1112 | a null-aware anti join can be built and not serialised |
| `PlanOfExprs.RestorableIsKept` | bolt/core/PlanNode.cpp:388-393 | a typed expression with restorable constants comes back with its type and field name |
| `PlanOfExprs.RestorableIsKeptBare` | bolt/core/PlanNode.cpp:1648-1682 | the same for window calls and bounds, which are read without a memory pool |
| `PlanOfExprs.TypedPlanRoundTrip` | bolt/core/PlanNode.cpp:2573-2617 | a plan of typed expressions that its constructors built, with a named join kind and constants that come back, comes back with its output schema, and equal (nodes field by field, expressions by their own equality) if and only if the unserialised fields hold their defaults and all literals fit |
| `PlanOfExprs.LosslessPlanRoundTrip` | bolt/core/PlanNode.cpp:2573-2617 | with lossless vector codecs this holds of every such plan with readable constants |
| `PlanOfExprs.TypedPlansLost` | bolt/core/PlanNode.cpp:1708-1735 | plans of typed expressions that come back changed or cannot be serialised |
| `TypeSignatures.FreshNameInjective` | bolt/exec/AggregateCompanionSignatures.cpp:264-291 | different counters give different fresh names |
| `TypeSignatures.NormalizeTypeImpl` | bolt/exec/AggregateCompanionSignatures.cpp:264-291 | the recursion that fills a renaming map visits variables in first-occurrence order and builds the renamed type |
| `TypeSignatures.ComputeNormalizeType` | bolt/exec/AggregateCompanionSignatures.cpp:293-298 | the normal form is the type with its variables renamed by first occurrence |
| `NormalForm.NormalFormsEqualIffRenaming` | bolt/exec/AggregateCompanionSignatures.cpp:264-298 | of types without concrete leaves called T<k>, normal forms are equal if and only if a bijection of the used variables turns one type into the other |
| `NormalForm.RenamingIffEqualNormalForms` | bolt/exec/AggregateCompanionSignatures.cpp:264-298 | for all types, leaves called T0 included, one is a renaming of the other if and only if their normal forms are equal and their variables are in the same places |
| `NormalFormExact.NormalFormInOrder` | bolt/exec/AggregateCompanionSignatures.cpp:264-291 | the names in a normal form are first met in the order T0, T1, and so on |
| `NormalFormExact.InOrderIsNormalForm` | bolt/exec/AggregateCompanionSignatures.cpp:264-291 | every type whose leaves called T<k> come in that order is the normal form of a type with variables in their places |
| `NormalFormExact.NormalFormDecidesIff` | bolt/exec/AggregateCompanionSignatures.cpp:264-298 | the normal form decides renaming of a type if and only if the type has no concrete leaf called T<k>, or those leaves are out of order in its normal form |
| `NormalForm.NormalizeIdempotent` | bolt/exec/AggregateCompanionSignatures.cpp:264-298 | normalising a normal form changes nothing |
| `NormalForm.FreshLeafBreaksNormalForm` | bolt/exec/AggregateCompanionSignatures.cpp:264-291 | the concrete type T0 has the normal form of a variable |
| `SuffixNames.SuffixIsJoinedTokens` | bolt/exec/AggregateCompanionSignatures.cpp:86-109 | a suffix is the underscore-joined token list of its type |
| `SuffixNames.PrefixCode` | bolt/exec/AggregateCompanionSignatures.cpp:86-109 | token lists are a prefix code: what follows a type's tokens does not matter for reading them back |
| `SuffixNames.SuffixesEqualIffSameType` | bolt/exec/AggregateCompanionSignatures.cpp:86-109 | suffixes are equal if and only if the types are, up to constructor case, row field names and decimal parameters |
| `SuffixNames.SanitizedSuffixesEqualIffSameType` | bolt/expression/FunctionSignature.cpp:39-48 | in the registry, which lower-cases names, they are equal if and only if the types are up to letter case, row field names and decimal parameters |
| `SuffixNames.LowerIgnoresCase` | bolt/expression/FunctionSignature.cpp:39-48 | lower-casing leaves no capital, forgets case, and changes nothing else |
| `SuffixNames.DecimalSuffixesCollide` | bolt/exec/AggregateCompanionSignatures.cpp:86-109 | decimals of any parameters share a suffix |
| `SuffixNames.KeywordLeafCollides` | bolt/exec/AggregateCompanionSignatures.cpp:86-109 | a leaf called array makes two different row types share a suffix |
| `Companions.AddUsedVariablesInType` | bolt/exec/AggregateCompanionSignatures.cpp:40-51 | the map passed along holds exactly the declared variables that the types so far mention |
| `Companions.ComputeUsedTypeVariables` | bolt/exec/AggregateCompanionSignatures.cpp:55-63 | the loop returns exactly the declared variables that the types mention |
| `Companions.ResolvableIffDetermined` | bolt/exec/AggregateCompanionSignatures.cpp:65-84 | the test holds if and only if any two substitutions that agree on the intermediate type agree on the return type |
| `Companions.CompanionsDeclareExactlyWhatTheyUse` | bolt/exec/AggregateCompanionSignatures.cpp:111-232 | partial, merge, merge-extract and extract signatures declare exactly the variables of their own types |
| `Companions.StagesCompose` | bolt/exec/AggregateCompanionSignatures.cpp:111-232 | the stages fit together: partial takes the aggregate's arguments, merge takes and gives what partial gives, merge-extract and extract take that and give the aggregate's result, and the last two exist exactly when the intermediate type determines the result type |
| `Companions.ProcessSignaturesOfDistinctTypes` | bolt/exec/AggregateCompanionSignatures.h:109-142 | the loop with its seen-set yields, in order, the first processable signature of each class |
| `Companions.ProcessSignaturesOfDistinctIntermediateTypes` | bolt/exec/AggregateCompanionSignatures.h:146-173 | the same for classes of intermediate types |
| `Companions.OneRepresentativePerClass` | bolt/exec/AggregateCompanionSignatures.h:109-173 | every processable signature has exactly one kept representative, at or before it |
| `Companions.HasSameIntermediateTypesAcrossSignatures` | bolt/exec/AggregateCompanionSignatures.cpp:162-174 | the early-exit loop finds whether two signatures share a normalised intermediate type |
| `Companions.SameIntermediateIffMergeShorter` | bolt/exec/AggregateCompanionSignatures.cpp:149-174 | that holds if and only if the merge signatures are fewer than the originals |
| `Companions.GroupSignaturesByReturnType` | bolt/exec/AggregateCompanionSignatures.cpp:253-262 | the groups are keyed by the return types and each holds its signatures in order |
| `CompanionRegistry.ComputePartialSignatures` | bolt/exec/AggregateCompanionSignatures.cpp:111-133 | the builder loop yields one partial signature per signature, with exactly the variables it uses |
| `CompanionRegistry.Registries.RegisterPartialFunction` | bolt/exec/AggregateCompanionAdapter.cpp:289-329 | the aggregate registry holds the partial signatures under the lower-cased name, unless it was taken and overwriting is off |
| `CompanionRegistry.Registries.RegisterMergeFunction` | bolt/exec/AggregateCompanionAdapter.cpp:331-369 | the same for merge signatures |
| `CompanionRegistry.Registries.RegisterExtractFunctionWithSuffix` | bolt/exec/AggregateCompanionAdapter.cpp:479-532 | the function registry gains one suffixed entry per return type, later groups replacing earlier ones of the same name; without a suffix for a group it throws, keeping the entries of the groups before |
| `CompanionRegistry.Registries.RegisterMergeExtractFunctionWithSuffix` | bolt/exec/AggregateCompanionAdapter.cpp:371-427 | the same in the aggregate registry for merge-extract signatures, its state after a throw included |
| `CompanionRegistry.Registries.RegisterExtractFunction` | bolt/exec/AggregateCompanionAdapter.cpp:534-586 | suffixed entries when intermediate types repeat, one plain entry otherwise, whether anything was inserted, and what a throw leaves |
| `CompanionRegistry.Registries.RegisterMergeExtractFunction` | bolt/exec/AggregateCompanionAdapter.cpp:429-477 | the plain entry always, suffixed ones as well when intermediate types repeat, whether anything was inserted, and what a throw leaves |
| `CompanionRegistry.Registries.RegisterWithCompanions` | bolt/exec/Aggregate.cpp:69-112 | both registries and all five result flags after registering an aggregate with its companions; it throws if and only if a group that needs a suffix has none, and then both registries hold what was put before |
| `CompanionRegistry.RegisteredIffReported` | bolt/exec/Aggregate.cpp:220-261 | with overwrite, for each of the four kinds, the kind counts as registered if and only if a name of it is reported |
| `CompanionRegistry.MergeExtractInSomeGroup` | bolt/exec/AggregateCompanionAdapter.cpp:429-477 | merge-extract signatures exist if and only if the group of some return type has one |
| `CompanionRegistry.SuffixedFoundIffNoCollision` | bolt/exec/Aggregate.cpp:189-216 | the suffixed entries reported are all found if and only if no two groups that yield signatures share a name |
| `CompanionRegistry.ReportedFoundIffSuffixesDistinct` | bolt/exec/Aggregate.cpp:220-261 | after registering with overwrite everything reported is found if and only if, where suffixes are used, they differ |
| `CompanionRegistry.ReportedFoundIffReturnTypesDiffer` | bolt/exec/Aggregate.cpp:220-261 | everything reported is found if and only if, where suffixes are used, return types differ in more than letter case, row field names and decimal parameters |
| `CompanionRegistry.DecimalGroupsCollide` | bolt/exec/AggregateCompanionAdapter.cpp:371-427 | two decimal return types share a name, and one report is not found |
| `CompanionRegistry.DecimalPairCollides` | bolt/exec/AggregateCompanionAdapter.cpp:371-427 | an aggregate returning decimal(10) or decimal(20) from one intermediate type has a reported companion that is not found |
| `Arbitration.StepMovesFutures` | bolt/core/QueryCtx.cpp:139-174 | a step loses no future and makes only the one it hands out |
| `Arbitration.SerialisedRunKeepsInvariant` | bolt/core/QueryCtx.cpp:122-174 | in every interleaving with serialised reclaims, thrown or not, each future is in exactly one of the pending list, one finisher's list, or fulfilled once, pending is empty when idle, and no check fails |
| `Arbitration.UnlockedReadFollowsFlag` | bolt/core/QueryCtx.cpp:139-143 | the unlocked read goes on to the lock exactly when the flag is up, and otherwise changes nothing |
| `Arbitration.CheckerGetsFuture` | bolt/core/QueryCtx.cpp:139-154 | a check during an arbitration is a run of two steps that leaves one new pending future, and every other thread where it was |
| `Arbitration.ChecksHoldIffSerialised` | bolt/core/QueryCtx.cpp:156-174 | the internal checks hold throughout a run if and only if its reclaims are serialised |
| `Arbitration.OverlappingReclaimsFail` | bolt/core/QueryCtx.cpp:156-161 | two reclaims that both start fail the check |
| `Arbitration.OverlappingReclaimEndsTheOther` | bolt/core/QueryCtx.cpp:156-174 | the reclaim that comes second ends the arbitration of the first while that still reclaims, and the first then fails the check |
| `Arbitration.QuietMeansAllFulfilled` | bolt/core/QueryCtx.cpp:163-174 | once no arbitration or finisher is active, exactly the futures handed out are fulfilled, once each |
| `Arbitration.FinisherDrains` | bolt/core/QueryCtx.cpp:163-174 | a finisher left to run fulfils its whole list and returns |
| `Arbitration.QueryCtx.CheckUnderArbitrationLocked` | bolt/core/QueryCtx.cpp:139-154 | under the lock the object takes the machine's check step, handing out a new future exactly during arbitration |
| `Arbitration.QueryCtx.CheckUnderArbitrationUnlocked` | bolt/core/QueryCtx.cpp:139-143 | the object's first read takes the machine's unlocked step |
| `Arbitration.QueryCtx.CheckUnderArbitration` | bolt/core/QueryCtx.cpp:139-154 | the whole method is that run: a new future is handed out exactly during an arbitration, and nothing changes otherwise |
| `Arbitration.QueryCtx.Start` | bolt/core/QueryCtx.cpp:156-161 | the object takes the machine's start step, its checks holding when no other reclaim is under way |
| `Arbitration.QueryCtx.FinishLocked` | bolt/core/QueryCtx.cpp:163-171 | the locked section takes the finish step: the pending promises move to the finisher and the flag clears |
| `Arbitration.QueryCtx.FulfillNext` | bolt/core/QueryCtx.cpp:171-174 | each turn of the unlocked loop, in whatever state other threads have left, takes the fulfil step with the next promise |
| `Arbitration.QueryCtx.Finish` | bolt/core/QueryCtx.cpp:163-174 | without interruption the whole method is a run of the machine that fulfils every pending promise, once each, in order |
| `AsyncGuards.RunKeepsAccounts` | bolt/connectors/Connector.h:410-533 | in every interleaving the counters equal the engaged guards and their bytes plus what faulty sizes have put out |
| `AsyncGuards.BalancedIffClean` | bolt/connectors/Connector.h:481-522 | the counters describe the engaged guards if and only if no size counted in and no total destroyed was negative |
| `AsyncGuards.ClosedForGood` | bolt/connectors/Connector.h:422-448 | in every run from a closed context, whatever is still in, it stays closed, no guard engages, and the thread count falls by exactly the engaged guards that go |
| `AsyncGuards.EmptyForGood` | bolt/connectors/Connector.h:422-448 | closed with no thread in, threads and bytes stay as they are and no guard is engaged |
| `AsyncGuards.NothingAfterWait` | bolt/connectors/Connector.h:440-448 | a wait that returned through its predicate is followed by zero threads forever, and in a clean run by zero bytes |
| `AsyncGuards.NegativeCreationLeaks` | bolt/connectors/Connector.h:481-492 | a guard created with a negative size leaves a thread counted in with no guard |
| `AsyncGuards.NegativeTotalUnbalances` | bolt/connectors/Connector.h:494-522 | a guard destroyed with a negative total leaves twice that total counted |
| `AsyncGuards.AsyncThreadCtx.In` | bolt/connectors/Connector.h:422-432 | the object's counters follow the machine's entry step |
| `AsyncGuards.AsyncThreadCtx.Out` | bolt/connectors/Connector.h:433-438 | the object's counters follow the machine's exit step |
| `AsyncGuards.AsyncThreadCtx.Close` | bolt/connectors/Connector.h:440-448 | closing changes the state only |
| `BufferHeap.LiveIffHeld` | bolt/buffer/Buffer.h:79-96 | a buffer is live if and only if a pointer or a live slice holds it |
| `BufferHeap.LiveIffReached` | bolt/buffer/Buffer.cpp:35-69 | the live buffers are exactly those on the parent chains of the pointers |
| `BufferHeap.SliceWithinLiveRoot` | bolt/buffer/Buffer.cpp:45-69 | a slice of slices keeps its whole chain alive and lies inside the memory of its root |
| `BufferHeap.NoPointersNoBuffers` | bolt/buffer/Buffer.h:87-96 | without pointers nothing is live, no pool byte is out, and each buffer was freed once |
| `BufferHeap.ResizeValidIff` | bolt/buffer/Buffer.h:135-140 | a new size keeps counts, charges and places in order if and only if every slice of the buffer fits it |
| `BufferHeap.ShrinkUnderSlice` | bolt/buffer/Buffer.h:135-140 | eight shared bytes shrunk to four leave a slice of the last four outside the buffer |
| `BufferHeap.UniqueHasNoSlices` | bolt/buffer/Buffer.h:386-424 | a buffer whose only holder is a pointer has no slices, which makes growth in place safe |
| `BufferHeap.ReallocatedValid` | bolt/buffer/Buffer.h:386-466 | on every path (in place, unshared, moved, kept at its address) reallocation keeps the heap in order and leaves the pointer as the only holder of the new memory |
| `BufferHeap.DetachedUnowned` | bolt/buffer/Buffer.h:433-452 | while the pool reallocates, the only pointer detached, the buffer is live with count zero and no holder, and everything else is in order |
| `BufferHeap.DetachedReallocates` | bolt/buffer/Buffer.h:433-466 | attaching the pointer again gives exactly the heap before, and the pool's two outcomes lead from the detached heap to the reallocated ones |
| `BufferHeap.Buffers.PoolReallocate` | bolt/buffer/Buffer.h:430-466 | detach, reallocate, and either own the old buffer again with nothing changed, when the pool throws, or alone hold the new memory |
| `BufferHeap.SliceReadsRoot` | bolt/buffer/Buffer.cpp:45-69 | what a slice of slices reads is the part of its root that its offsets add up to |
| `BufferHeap.ReallocatedKeepsContents` | bolt/buffer/Buffer.h:386-466 | every buffer that another pointer or slice holds is live after a reallocation and reads the same bytes |
| `BufferHeap.ReallocatedOthersRead` | bolt/buffer/Buffer.h:386-466 | every other pointer, to the same buffer, to a slice of any depth or elsewhere, keeps reading its bytes while one pointer is reallocated |
| `BufferHeap.ResizeReads` | bolt/buffer/Buffer.h:135-140 | new memory that agrees with the old one as far as slices reach changes what the pointers to that buffer read and nothing else |
| `BufferHeap.Buffers.Add` | bolt/buffer/Buffer.h:364-380 | a new buffer is held once and charged capacity plus header and padding, and all other pointers read on |
| `BufferHeap.Buffers.Copy` | bolt/buffer/Buffer.h:79-81 | copying a pointer keeps counts equal to the number of holders, and everything reads as before |
| `BufferHeap.Buffers.Slice` | bolt/buffer/Buffer.cpp:45-69 | a slice exists exactly when it fits; then it holds its parent, costs the pool nothing, and reads the asked part of what the parent read |
| `BufferHeap.Buffers.Drop` | bolt/buffer/Buffer.h:87-96 | dropping a pointer frees exactly what nothing holds any more, up the chain, terminates, and leaves what the other pointers read |
| `BufferHeap.Buffers.SetSize` | bolt/buffer/Buffer.h:135-140 | refused on views and beyond the capacity; otherwise the heap is in order afterwards if and only if the slices fit, and then the slices and all pointers elsewhere read on |
| `AlignedBuffers.Allocate` | bolt/buffer/Buffer.h:364-380 | a new buffer is uniquely held with the asked size and the capacity the pool prefers, which is charged, filled with the initial value if one is given; it fails exactly on overflow or a pool failure, changing nothing |
| `AlignedBuffers.FillNewMemory` | bolt/buffer/Buffer.h:526-550 | the fill loop writes the initial value from the first element boundary at or below the old size |
| `AlignedBuffers.Reallocate` | bolt/buffer/Buffer.h:386-466 | on every path the pointer ends alone with old bytes and fill as specified, and slices and other pointers read on; it fails exactly on overflow, on views, or when memory is needed and the pool throws, changing nothing |
| `AlignedBuffers.AlignedReallocationKeepsPrefix` | bolt/buffer/Buffer.h:386-466 | with an old size of whole elements the first min(old, new) bytes stay and the growth is filled |
| `AlignedBuffers.GrowthKeepsOldBytesIffAligned` | bolt/buffer/Buffer.h:526-550 | a filled growth keeps all old bytes if and only if the old size is a whole number of elements |
| `AlignedBuffers.AppendTo` | bolt/buffer/Buffer.h:474-490 | the pointer reads its old bytes followed by the items; a pointer to the same buffer sees them if and only if there was room, and slices and all others read on; the exact failure condition, which changes nothing |
| `AlignedBuffers.OutgrownBounded` | bolt/buffer/Buffer.h:474-490 | over any run of appends the sum of all capacities that were left for lack of room is at most the capacity reached |
| `AlignedBuffers.RunReadsMore` | bolt/buffer/Buffer.h:474-490 | over any run of appends the pointer reads its old bytes followed by the concatenation of all items, and pointers that do not share its buffer read on |
| `AlignedBuffers.AppendAll` | bolt/buffer/Buffer.h:474-490 | appends go on heap by heap up to the first that meets the failure condition, and not further or less far; the pointer then reads the concatenation of what was appended, and all outgrown capacities together are at most the present one |
| `NonPodBuffers.NonPodHeap.SetSize` | bolt/buffer/Buffer.h:606-622 | growing constructs and shrinking destroys exactly the slots between the sizes |
| `NonPodBuffers.NonPodHeap.Release` | bolt/buffer/Buffer.h:635-644 | the last release destroys every object of the buffer, and no other |
| `NonPodBuffers.NonPodHeap.CopyFrom` | bolt/buffer/Buffer.h:646-659 | assignment copies values and neither constructs nor destroys |
| `NonPodBuffers.NonPodHeap.Allocate` | bolt/buffer/Buffer.h:661-685 | allocation constructs exactly the slots below the size |
| `NonPodBuffers.NonPodHeap.Share` | bolt/buffer/Buffer.h:79-81 | copying a pointer raises the count and touches no object |
| `NonPodBuffers.NonPodHeap.Reallocate` | bolt/buffer/Buffer.h:386-424 | on every path slots below the new size hold the old values and then the initial one, the lifetime ledger is kept, a shared original stays with its other holders, and it fails exactly when memory is needed and the pool throws, changing nothing |
| `NonPodBuffers.AllObjectsDestroyed` | bolt/buffer/Buffer.h:599-694 | when every buffer is released, every object ever constructed has been destroyed exactly once |
| `StringHolder.Holder.GetOwnedBytes` | bolt/buffer/StringViewBufferHolder.cpp:36-51 | the returned view reads the given bytes, and every view returned before still reads its own |
| `StringHolder.Holder.GetOwnedStringView` | bolt/buffer/StringViewBufferHolder.cpp:53-58 | inline views come back as they are, others as owned copies disjoint from all earlier ones |
| `StringHolder.Holder.MoveBuffers` | bolt/buffer/StringViewBufferHolder.h:75-79 | the buffers go over with their used sizes, and every issued view still lies in a used part and reads its bytes |
| `AggregationState.Aggregate.IsNull` | bolt/exec/Aggregate.h:362-364 | the zero-count shortcut never hides a set null bit |
| `AggregationState.Aggregate.SetNull` | bolt/exec/Aggregate.h:375-382 | one null bit is set, the count follows, and nothing else in the row changes |
| `AggregationState.Aggregate.ClearNull` | bolt/exec/Aggregate.h:384-394 | one null bit is cleared, the count follows, and nothing else in the row changes |
| `AggregationState.Aggregate.SetAllNulls` | bolt/exec/Aggregate.h:366-373 | the listed rows become null, and the count stays right if and only if they are distinct and none was null |
| `AggregationState.RepeatedRowMiscounts` | bolt/exec/Aggregate.h:366-373 | a row listed twice, or null already, is counted once too often |
| `AggregationState.MarkAllNulls` | bolt/exec/Aggregate.h:366-373 | marking adds exactly the listed rows to the null ones and touches no accumulator |
| `AggregationState.Aggregate.AddValue` | bolt/exec/AggregationHook.h:160-166 | one value goes into one group's cell, other cells and other aggregates' bits and accumulators unchanged, a failed update leaving only the null bit cleared |
| `AggregationState.FoldedIsFoldOfRouted` | bolt/exec/AggregationHook.h:77-86 | what a batch leaves in a group is the fold of exactly the values routed to it, in order |
| `AggregationState.Aggregate.AddValues` | bolt/exec/AggregationHook.h:77-86 | with groups repeating in any order each accumulator ends as the fold of the values routed to it, and the run is cut short, at the first failing update, if and only if some group's fold fails |
| `AggregationState.BatchesFold` | bolt/exec/AggregationHook.h:77-86 | after any number of batches over the same groups each cell is what the batches leave, one after the other, of its first value |
| `AggregationState.BatchesFoldAsOne` | bolt/exec/AggregationHook.h:77-86 | which is a single fold of all the values that they routed to the group, in order |
| `AggregationState.NextBatchWholeIff` | bolt/exec/AggregationHook.h:77-86 | the next batch is added whole if and only if no group's fold over all batches up to it fails |
| `AggregationState.SumHookSums` | bolt/common/base/CheckedArithmetic.h:113-120 | the sum hook ends at the exact sum, failing if and only if a running sum leaves 64 bits |
| `AggregationState.ExtremumKeepsFirstBest` | bolt/exec/AggregationHook.h:234-244 | under any comparison that is a total preorder the hook keeps the first of the best values, what the group held counting as first |
| `AggregationState.ComparePrimitiveOrders` | bolt/vector/SimpleVector.h:378-390 | the primitive comparison is such a preorder on numbers, infinities, zeros of both signs and NaNs |
| `AggregationState.MinMaxHookKeepsFirstBest` | bolt/exec/AggregationHook.h:234-244 | so the hook keeps the first of the smallest or largest numbers, NaN counting as the largest |
| `AggregationState.MinimumIsLeast` | bolt/exec/AggregationHook.h:234-244 | the minimum is one of the values and above none, the least of the numbers; it is NaN exactly when all values are |
| `AggregationState.MaximumIsGreatest` | bolt/exec/AggregationHook.h:234-244 | the maximum is one of the values and below none; it is NaN exactly when some value is |
| `AggregationState.NullIffUntouched` | bolt/exec/AggregationHook.h:93-103 | a group is null afterwards if and only if it was and got no value |
| `ExtractFunction.SetOffset` | bolt/exec/AggregateCompanionAdapter.cpp:208-220 | the accumulator starts after null byte and row-size slot at a multiple of its alignment |
| `ExtractFunction.RoundUp` | bolt/common/base/BitUtil.h:119-121 | the least multiple not below the value |
| `ExtractFunction.AllocateGroups` | bolt/exec/AggregateCompanionAdapter.cpp:222-235 | each selected row has an aligned group whose parts do not overlap, disjoint from the other rows' groups |
| `ExtractFunction.CompactGroups` | bolt/exec/AggregateCompanionAdapter.cpp:237-253 | in place, the groups of the selected rows end at the front in order, none read after being overwritten, each row told its place |
| `ExtractFunction.RankInverts` | bolt/exec/AggregateCompanionAdapter.cpp:237-253 | places and selected rows correspond one to one |
| `ExtractFunction.SelectedVisits` | bolt/exec/AggregateCompanionAdapter.cpp:237-253 | each selected row is visited once in ascending order, and no other row |
| `ExtractFunction.AggregateRows` | bolt/exec/AggregateCompanionAdapter.cpp:255-275 | each selected row's accumulator holds its own intermediate result and nothing else |
| `ExtractFunction.Apply` | bolt/exec/AggregateCompanionAdapter.cpp:255-287 | each selected row gets the extraction of its own accumulator, other rows keep their result, and each group is destroyed once when accumulators own memory |

## Left out

- `ExprSerde.Create`: JSON scalars are not converted between kinds, and malformed plan objects are not modelled.
- Signalling NaN literals of type REAL are taken to survive the conversion to double and back.
- Non-null literals of array, map, row and opaque kinds; the encodings of types and of other literals are leaves.
- Lazy and sequence vector encodings in constants.
- Lambda bodies are evaluated over the same input row type as the expression around them.
- `AggregationState.Aggregate.AddValue`: does not model the unchecked sum of the overflow variant or floating-point rounding in sums.
- `AlignedBuffers.Reallocate`: does not model debug end guards or the bit-wise fill of boolean buffers; a view is refused, as debug builds do, while a release build would call the null pool of the view.
- `BufferHeap.Buffers.Slice`: does not model the copying slice of boolean buffers at a bit offset.
- `StringHolder.Holder.GetOwnedStringView`: the capacity a pool really gives is a parameter at least as large as the one asked for.
- `Arbitration.QuietMeansAllFulfilled`: liveness and fairness of the waiting threads are not stated.
- `AsyncGuards.NothingAfterWait`: timeouts of the wait, condition-variable wake-ups and overflow of the 64-bit byte counter are not modelled.
- Registration of window functions, of function factories and of function metadata beside the companion signatures.
- Index lookup joins and the plan nodes that are not listed; table scans and other sources are leaves.
- Reading plans that name a class unknown to the registry.
- `ExtractFunction.Apply`: string allocator contents and the validation switch of intermediate inputs are inside the wrapped aggregate.
