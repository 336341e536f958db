# Soroban-ret: a model of its rewrites and exact algorithms

Soroban-ret turns the WASM of a Soroban contract back into Rust. Its readable output depends on a
chain of in-place rewrites over one expression and statement tree, on decisions taken in two places
that have to agree, and on a few exact algorithms. This project models those parts and proves what
they are meant to do. `dafny verify dfyconfig.toml` checks all of it.

## How the model is built

- `Ir.dfy` holds the tree: the source's expressions and statements, the direct children of a node and
  their replacement. Similar operators share a constructor and differ in an operator tag.
- `Semantics.dfy` gives the tree a meaning. A run starts from scoped frames of named words and
  produces a result and an ordered trace of host effects; loops take fuel. The host is a parameter:
  what an operation answers, what a hole does, what an unbound name reads and how patterns match are
  arbitrary, and each theorem says which of these it restricts. An aborted run has no trace, because
  a trap rolls the host's effects back.
- `Simulation.dfy` compares two runs step by step. Statements are alike when their expressions have
  the same value, trace and control effect in every store.
- `Scopes.dfy` gives the scopes that the text opens, and the stores of a run before every statement it
  executes. `Reach.dfy` reads off the text which outcomes an expression can have.
- `ParamLocals.dfy`, `DeadLets.dfy`, `OptionVoid.dfy` and `BoolLocals.dfy` are the rewrites that keep
  a program's meaning; `IdScopes.dfy` follows the binding ids of the last along a run. `HintRepair.dfy` and
  the holing pass in `Recovery.dfy` change only holes.
- `Positions.dfy` lists the expressions of a body with what each is used for, and `Kinds.dfy` sorts nodes.
  With these, `ParamReads.dfy`, `DeadUses.dfy`, `SearchTests.dfy`, `BoolWinners.dfy`, `KeyRepairs.dfy`,
  `Holes.dfy`, `BaseReads.dfy` and `Tails.dfy` say what each pass makes of every expression of a body, without
  the pass's own traversal: a relation between an expression and what it becomes, which one expression only
  can meet, or both directions of a test.
- `Recovery.dfy` (grading) and `TailSynthesis.dfy` (what codegen appends to a body) are the two sides
  of one judgement about what was lost. `BaseInference.dfy` decides which slot is the first parameter.
- `Scanner.dfy` is the literal-aware substitution, against a specification that splits a text into regions
  first. `RegionEnds.dfy` and `Openers.dfy` say what literals and comments start with and where they end
  without following the machine, `Formatter.dfy` composes
  the two substitutions in use, `Lifetimes.dfy` compares the machine's regions with those of Rust, and
  `ByteText.dfy` says what becomes of text beyond ASCII.
- `Stripper.dfy`, `Calendar.dfy`, `Crc.dfy`, `Lcg.dfy`, `Sampler.dfy`, `Imports.dfy` and
  `InterfaceScore.dfy` are the other exact algorithms, each against a specification of its own: brace
  levels, the Gregorian calendar of section 3.2.1 of ISO 8601:2004, division of polynomials, the cycle of
  a permutation, mixed-radix numbers, sets of names, and point tallies. `TypeTables.dfy` gives the rendered
  types as texts and the names that each asks for, `InterfacePoints.dfy` the scores by what is counted.

Code that changes things step by step is a method, with a loop where the source loops and a class
where the source has an object with state; each is proved equal to a function, and the theorems are
about that function. Where one round of a source loop is long it is a method of its own, and the loop
calls it.

## What the proofs turned up

Each of these is a lemma at a concrete input, named first, and a theorem that says exactly when the code
does what it says, named second.

- `resolve_param_locals` takes `let var_0 = b` for an alias even when slot 0 belongs to another parameter
  (`ForeignAliasIsMisresolved`, `AliasKeepsExactlyOwn`), does not see assignments inside a `for` body, match
  arms or loop variables (`AssignmentInsideForIsMissed`, `CollectMissesExactly`), and resolves a read to a
  parameter that a match arm hides (`ArmHidesParameter`, `ReadAgreesExactlyWhen`). `AllKeep` is the condition
  as a caller can read it off the text: every replaced read denotes entry bindings, which are only ever given
  what they hold. `ResolvePreservesMeaning` covers every body that meets it.
- `drop_dead_lets` does not see uses inside a `for` body (`UseInsideForIsMissed`,
  `SearchMissesExactlyHidden`), leaves chains of bindings to further calls (`OneSweepIsNotEnough`,
  `OneSweepIsEnoughExactlyWhen`), and makes a run complete that a dropped hole would have stopped
  (`DroppedHoleNoLongerTraps`, `DropsSafelyExactlyWhen`).
- `fold_option_void_compares` lets a hole that is never evaluated, behind `&&` or `||`, turn a comparison
  into a trap (`LazyHoleIsMisfolded`, `HoleIsRightExactlyWhen`).
- The literal-aware substitution takes the tick of a lifetime for the start of a character literal, so it
  rewrites inside strings and leaves code alone (`StringAfterLifetimeIsRewritten`,
  `InertMeetsRustExactlyWhen`); it steps over the start of a literal that can open inside a match
  (`MachineStepsOverOpening`, `RefinesExactlyWhen`); and it garbles or refuses text beyond ASCII
  (`AccentInString`, `KeptExactlyWhenAscii`).
- `strip_braced_blocks` deletes a block its marker does not own when a closing brace stands between
  (`ForeignBlockIsDeleted`, `BalanceKeptExactlyWhen`).
- Type definitions that are not rendered with aliases lose the imports that aliases suppress: with one curve
  in use an event, a union case or an `Option` field of an aliased size is written `BytesN` without an import
  (`OneCurveLosesBytesN`, `ImportsMatchExactlyWhen`), and so is a 48-byte array in a signature with both
  (`BothCurvesLoseBytesN`); with both, `Fr` is brought in twice (`ExtraImportsDistinctExactlyWhen`).
- Grading calls an empty body of type `Result<(), E>` logic lost, where codegen writes `Ok(())`
  (`ResultUnitIsCalledLost`, `StubMeansLogicLost`).
- The strkey decoder does not check the length: it accepts the encoding of a payload of any length and
  then returns other bytes (`ChecksumTakenForAddress`, `DecodeInvertsEncode`).
- The types score does not compare the kinds of types (`KindIsNotScored`, `TypesFullExactlyWhen`).

## Model

| member | source | states |
|---|---|---|
| `Ir.SlotOfSlotName` | crates/soroban-ret/src/pipeline.rs:4878-4900 | reading a `var_N` name back gives slot N for every slot below 2^32 |
| `Ir.SlotNameInjective` | crates/soroban-ret/src/pipeline.rs:4921-4927 | no two slots share a name, so comparing names compares slots |
| `ParamLocals.CollectReboundLocals` | crates/soroban-ret/src/pipeline.rs:4878-4919 | the collected set is the given one and every slot bound or assigned to something other than its own alias, at the depths the walk reaches |
| `ParamLocals.CollectMissesExactly` | crates/soroban-ret/src/pipeline.rs:4878-4919 | a slot is bound anew somewhere (by a `let`, an assignment, a match arm or as a loop variable) exactly when it is collected or bound by an arm, as a loop variable or inside a `for` body, so those are the ones that are missed |
| `ParamLocals.ResolveParamLocals` | crates/soroban-ret/src/pipeline.rs:4298-4325 | the body is rewritten in place to the pure rewriting that the meaning lemmas are about; slots are read as 32-bit numbers |
| `ParamReads.ResolvesExactly` | crates/soroban-ret/src/pipeline.rs:4929-4971 | the rewritten body has the statements of the original, and each of its expressions is the one with every read of a resolved slot, in the reach of the walk, replaced by the parameter of that slot and nothing else changed; the reach leaves out `for` statements, literal patterns, fallbacks, the fold over vectors and the stated unary forms |
| `ParamReads.ResolvedReads` | crates/soroban-ret/src/pipeline.rs:5105-5268 | read by read: in reach the parameter stands where the slot was read, out of reach the slot is still read, and no read is added or lost |
| `ParamReads.ResolvedIsUnique` | crates/soroban-ret/src/pipeline.rs:5105-5268 | no other expression meets this |
| `ParamReads.ParameterReads` | crates/soroban-ret/src/pipeline.rs:4298-4325 | a slot is resolved to the parameter at its distance from the base, exactly when it lies in the range of the parameters and is not bound anew |
| `ParamReads.ScanIs` | crates/soroban-ret/src/pipeline.rs:4878-4919 | a slot counts as bound anew exactly when a `let` or an assignment outside `for` gives its name a value that is no alias of it |
| `ParamReads.AliasTestIs` | crates/soroban-ret/src/pipeline.rs:4921-4927 | an alias is a read of the slot under either name or of any parameter, below any number of conversions |
| `ParamLocals.ReadAgreesExactlyWhen` | crates/soroban-ret/src/pipeline.rs:5105-5268 | a replaced read gives the same word as the original one, in every store of the shape that the text gives it there, exactly when both names denote the bindings the function was entered with |
| `ParamLocals.ReplaceKeepsValue` | crates/soroban-ret/src/pipeline.rs:5105-5268 | while the entry bindings hold the arguments and the replaced reads denote them, a rewritten expression has the value, trace and control effect of the original |
| `ParamLocals.BindingKeepsPins` | crates/soroban-ret/src/pipeline.rs:4921-4927 | a binding that re-states what a slot or its parameter holds, conversions included, leaves the entry bindings as they were; all others write other entries |
| `ParamLocals.AliasKeepsExactlyOwn` | crates/soroban-ret/src/pipeline.rs:4921-4927 | what passes as an alias binding keeps the argument in its slot exactly when it reads the slot or the slot's own parameter; for any other one a host and a store are given on which it does not |
| `ParamLocals.ResolveAll` | crates/soroban-ret/src/pipeline.rs:4929-4971 | rewriting a statement list, nested scopes and loops included, keeps its outcome, store and trace at every fuel, and the entry bindings |
| `ParamLocals.ResolvePreservesMeaning` | crates/soroban-ret/src/pipeline.rs:4298-4325 | for every body whose text keeps the entry bindings: from every entry store the rewritten body has the same result, store and effect trace at every fuel, and at every statement that is executed, in blocks, arms and every iteration of loops, the un-rebound slots and their parameters hold their arguments |
| `ParamLocals.SlotHoldsArgument` | crates/soroban-ret/src/pipeline.rs:4298-4325 | at each such statement a slot that no open scope binds reads as its argument |
| `ParamLocals.ForeignAliasIsMisresolved` | crates/soroban-ret/src/pipeline.rs:4921-4927 | a binding of one parameter's slot to a different parameter passes as an alias, and the rewritten body then returns the wrong argument |
| `ParamLocals.AssignmentInsideForIsMissed` | crates/soroban-ret/src/pipeline.rs:4878-4919 | an assignment inside a `for` body is not collected, and the rewritten body then returns the stale argument |
| `ParamLocals.ArmHidesParameter` | crates/soroban-ret/src/pipeline.rs:4069-4085 | a match arm that binds the parameter's name (`v0`) hides it: nothing is rebound and nothing is an alias, and the rewritten body returns the payload instead of the argument |
| `DeadLets.Body.DropDeadLets` | crates/soroban-ret/src/pipeline.rs:7484-7504 | the in-place index loop terminates and leaves the list from which, left to right, each binding that is pure and not referenced later is gone |
| `DeadLets.EvalPure` | crates/soroban-ret/src/pipeline.rs:7548-7568 | a pure initializer always yields a value and adds nothing to the trace |
| `DeadLets.ExecAllUnmentioned` | crates/soroban-ret/src/pipeline.rs:7507-7545 | two stores that differ in one name only give runs that differ in that name only, for every list that does not mention it, `for` loops included |
| `DeadLets.SearchMissesExactlyHidden` | crates/soroban-ret/src/pipeline.rs:7507-7545 | the reference search misses a mention exactly when all mentions stand inside a `for` or in a literal pattern |
| `DeadUses.ReferencesExactlyWhen` | crates/soroban-ret/src/pipeline.rs:7507-7545 | the search reports a name exactly when, outside `for` and literal patterns, some expression is that variable or no bare variable at all, or some assignment writes to it |
| `DeadUses.PureExactlyWhen` | crates/soroban-ret/src/pipeline.rs:7548-7568 | an initializer is pure exactly when all its nodes are variables, numbers, booleans, holes, conversions, tuples or vectors |
| `DeadUses.SweepsExactly` | crates/soroban-ret/src/pipeline.rs:7484-7504 | statement by statement of the original list: a binding without such a use after it goes, or leaves its value if that is not pure, and everything else stays |
| `DeadUses.BindingsLeft` | crates/soroban-ret/src/pipeline.rs:7484-7504 | a binding stands in the swept list exactly when it stood in the original one with such a use after it |
| `DeadLets.DropPreservesRuns` | crates/soroban-ret/src/pipeline.rs:7484-7504 | every run of a list, `for` loops included, keeps its outcome and ordered trace unless a dropped name has a use that the search does not see; holes taken as effect-free |
| `DeadLets.DropsSafelyExactlyWhen` | crates/soroban-ret/src/pipeline.rs:7548-7568 | over all bodies without hidden uses and all runs the sweep cannot be observed exactly when holes yield values |
| `DeadLets.DropKeepsWork` | crates/soroban-ret/src/pipeline.rs:7484-7504 | every statement that is not a pure binding survives, once and in order |
| `DeadLets.OneSweepIsEnoughExactlyWhen` | crates/soroban-ret/src/pipeline.rs:7484-7504 | a second call changes nothing exactly when no binding of the original list is used only by bindings that the first call removes |
| `DeadLets.OneSweepIsNotEnough` | crates/soroban-ret/src/pipeline.rs:7484-7504 | one call can leave a binding that only the next call removes |
| `DeadLets.UseInsideForIsMissed` | crates/soroban-ret/src/pipeline.rs:7507-7545 | a use inside a `for` body does not count as a reference, and the run then reads an unbound name |
| `DeadLets.DroppedHoleNoLongerTraps` | crates/soroban-ret/src/pipeline.rs:7548-7568 | a dropped hole that would have trapped turns an aborting run into a completing one |
| `OptionVoid.CountUses` | crates/soroban-ret/src/pipeline.rs:3309-3330 | the counting walk adds, for every name, the number of its uses in walked positions |
| `OptionVoid.FoldOptionVoidCompares` | crates/soroban-ret/src/pipeline.rs:3309-3330 | the statements are rewritten in place by the pure fold, with the use counts of the original statements |
| `SearchTests.FoldsExactly` | crates/soroban-ret/src/pipeline.rs:3332-3456 | the folded body has the statements of the original, and each of its expressions, literal patterns aside, is the one in which every `==` or `!=` between a bare index search and a literal 2, on either side and at any depth, has become `is_none` or `is_some` of that search, or a hole if an argument holds a hole and the receiver can be dropped, every search argument that is a shared identifier has been cloned, and nothing else changed; no such comparison is left |
| `SearchTests.FoldedIsUnique` | crates/soroban-ret/src/pipeline.rs:3352-3455 | no other expression meets this |
| `SearchTests.CountedTwiceExactlyWhen` | crates/soroban-ret/src/pipeline.rs:3309-3330 | an identifier is shared exactly when it stands in two different places of the body |
| `Reach.NeverRootedNeverYields` | crates/soroban-ret/src/ir/soroban_ir.rs:279-306 | an expression that is never rooted cannot yield a value, whatever stands beside the hole |
| `Reach.ReachedHoleNeverYields` | crates/soroban-ret/src/pipeline.rs:3349-3351 | nor can one that holds a never-rooted node outside right operands of `&&` and `||` and outside fallbacks |
| `Reach.ReachedHoleDooms` | crates/soroban-ret/src/pipeline.rs:3349-3351 | without a `?`, such an expression has no outcome but aborting |
| `Reach.EvalShows` | crates/soroban-ret/src/ir/soroban_ir.rs:279-306 | every outcome of an evaluation, value or early return, is among those read off the text for the truth its names have |
| `OptionVoid.UnknownWasThere` | crates/soroban-ret/src/pipeline.rs:3352-3455 | the fold brings no unknown node into an expression that had none |
| `OptionVoid.EvalTest` | crates/soroban-ret/src/pipeline.rs:3352-3455 | with None as word 2 and Some(i) as (i << 32) + 4 for every 32-bit i, comparing a search with 2 equals the emitted is_none or is_some, trace included |
| `OptionVoid.FixKeepsValue` | crates/soroban-ret/src/pipeline.rs:3352-3455 | if each comparison that is folded into a hole has no outcome but aborting, folding an expression keeps its value, trace and control effect, inserted clones included |
| `OptionVoid.HoleIsRightExactlyWhen` | crates/soroban-ret/src/pipeline.rs:3349-3351 | a comparison is folded into a hole rightly on all hosts and stores if its text allows neither a value nor an early return; where lazy left operands are names or literals, exactly then |
| `OptionVoid.FoldPreservesMeaning` | crates/soroban-ret/src/pipeline.rs:3332-3456 | folding a whole statement tree keeps every run, if each comparison that is folded into a hole has no outcome but aborting |
| `OptionVoid.ClonedExactlyWhenShared` | crates/soroban-ret/src/pipeline.rs:3309-3330 | over a whole body and its own use counts: an identifier used less than twice gets no new clone anywhere, and one used twice or more stands bare in no search |
| `OptionVoid.FixUses` | crates/soroban-ret/src/pipeline.rs:3352-3455 | the fold never adds a use of a name |
| `OptionVoid.FoldIsIdempotent` | crates/soroban-ret/src/pipeline.rs:3332-3456 | a second fold, with the counts of the folded statements, changes nothing |
| `OptionVoid.LazyHoleIsMisfolded` | crates/soroban-ret/src/pipeline.rs:3349-3351 | an unknown node that is never evaluated, behind a short-circuiting operator, makes the fold turn a completing comparison into a trap |
| `BoolLocals.UnifyBoolLocals` | crates/soroban-ret/src/pipeline.rs:3582-3737 | the two walks with their id counter, scope stack and evidence map compute the declarative unification |
| `BoolWinners.UnifiesExactly` | crates/soroban-ret/src/pipeline.rs:3582-3737 | every value of a body belongs to the binding that its own `let` makes or that its assignment sees; the pass writes false and true for the 0 and 1 of exactly those bindings whose values are all boolean typed or 0 or 1 of at most 64 bits, do not trap, and include one of each sort, and changes nothing else |
| `BoolLocals.Walker.Walk` | crates/soroban-ret/src/pipeline.rs:3627-3737 | a walk from any state gives each binding the next ids in order, leaves the outer scopes as lexical scoping says, and adds the evidence of exactly its own assignments |
| `BoolLocals.LexicalInBlock` | crates/soroban-ret/src/pipeline.rs:3606-3608 | after any prefix of a block a name resolves to the id of the nearest earlier `let` of it, or else as outside the block |
| `BoolLocals.LexicalOnEntry` | crates/soroban-ret/src/pipeline.rs:3606-3608 | a name in the innermost scope shadows the outer ones, and every other name resolves as before |
| `BoolLocals.LexicalInArm` | crates/soroban-ret/src/pipeline.rs:3627-3737 | in a match arm a pattern variable resolves to the last position that binds it |
| `IdScopes.IdsAgreeWithStore` | crates/soroban-ret/src/pipeline.rs:3606-3608 | in every run an assignment that is given an id writes exactly the store entry that the binding with this id made, in the scope that made it |
| `BoolLocals.RewriteRecords` | crates/soroban-ret/src/pipeline.rs:3627-3737 | rewriting values moves no id: both walks give every binding the same id |
| `BoolLocals.UnifiedBindingsAreBoolean` | crates/soroban-ret/src/pipeline.rs:3582-3737 | afterwards every value bound or assigned to a unified binding is boolean, and every other value is unchanged |
| `BoolLocals.UnifyIsIdempotent` | crates/soroban-ret/src/pipeline.rs:3582-3737 | after the pass no binding qualifies and a second pass changes nothing |
| `BoolLocals.UnifyPreservesMeaning` | crates/soroban-ret/src/pipeline.rs:3582-3737 | every run is unchanged, the boolean literals standing for the same words as 0 and 1 |
| `Recovery.NodeStats.WalkExpr` | crates/soroban-ret/src/recovery.rs:437-630 | the grading walk visits exactly the nodes the generic walker reaches from an expression, in the same order |
| `Recovery.NodeStats.WalkBody` | crates/soroban-ret/src/recovery.rs:389-431 | the same for statement lists, and the expressions of literal match patterns as well |
| `Recovery.GradedNodes` | crates/soroban-ret/src/pipeline.rs:3021-3060 | the graded nodes are the generic walker's nodes and those of the literal patterns, counted with multiplicity |
| `Recovery.Score` | crates/soroban-ret/src/recovery.rs:331-371 | the score is the exact share of known nodes, lies between 0 and 1, and is 1 exactly when no node is unknown |
| `Recovery.ScoreFn` | crates/soroban-ret/src/recovery.rs:331-371 | the status follows from body, host calls and return type; the counts are those of the graded nodes; the score is 1 exactly for Clean and Trivial |
| `Recovery.Report` | crates/soroban-ret/src/recovery.rs:274-313 | one record per declared name in order: of the function lifted for it, as the grading of one function states it, or Missing |
| `Recovery.CountsPartition` | crates/soroban-ret/src/recovery.rs:212-245 | recovered, partial and lost functions add up to all functions |
| `Holes.GradedExactly` | crates/soroban-ret/src/recovery.rs:389-431 | the graded nodes are the nodes of the expressions of the body in their order, with those of literal patterns or without |
| `Holes.UnknownExactly` | crates/soroban-ret/src/recovery.rs:437-630 | unknown are exactly the holes, the slots that stand for themselves and the raw host calls, each at its place; reported are exactly the names of the latter |
| `Holes.VerdictExactly` | crates/soroban-ret/src/recovery.rs:331-371 | an empty body is lost exactly if host calls went missing or there is a value to return; any other body is clean exactly without an unknown node, and the score is the share of known nodes |
| `Recovery.HolePureRawHostReads` | crates/soroban-ret/src/pipeline.rs:3750-3802 | the in-place holing equals the pure one |
| `Holes.HolesExactly` | crates/soroban-ret/src/pipeline.rs:3750-3802 | the holed body has the statements of the original, and each of its expressions, literal patterns aside, has a hole for every raw call of one of the four effect-free host functions and is otherwise the same |
| `Recovery.HoleShrinks` | crates/soroban-ret/src/pipeline.rs:3757-3795 | in an expression holing keeps whether a marker is present, raises no count and adds no host call |
| `Recovery.HoleAllShrinks` | crates/soroban-ret/src/pipeline.rs:3750-3802 | the same for whole bodies, patterns included |
| `Recovery.HolingKeepsVerdict` | crates/soroban-ret/src/pipeline.rs:3750-3802 | the pass keeps every function's status, never raises its unknown count and only shrinks its missing host calls |
| `HintRepair.UniqueStorageHintKey` | crates/soroban-ret/src/pipeline.rs:1026-1042 | a key is returned exactly if some hint gives one and all that do agree, whatever their order and number |
| `KeyRepairs.HintsDiffer` | crates/soroban-ret/src/pipeline.rs:1146-1160 | different hints give different keys |
| `HintRepair.RepairUnknownStorageKeys` | crates/soroban-ret/src/pipeline.rs:1395-1399 | the statements are repaired in place by the pure repair |
| `KeyRepairs.MendsExactly` | crates/soroban-ret/src/pipeline.rs:1907-1938 | the repaired body has the statements of the original, and each of its expressions, `for` bounds and literal patterns aside, has the hinted key for every key of a storage operation that is a hole or still read from linear memory, and is otherwise the same |
| `KeyRepairs.MendedIsUnique` | crates/soroban-ret/src/pipeline.rs:1940-2155 | no other expression meets this |
| `HintRepair.HintKeyIsFinal` | crates/soroban-ret/src/pipeline.rs:1146-1160 | a key made from a hint is a leaf, known and not itself repairable |
| `HintRepair.RepairLeavesNothing` | crates/soroban-ret/src/pipeline.rs:1940-2118 | after the repair no storage key in a walked position is repairable, at any depth |
| `HintRepair.RepairTouchesKeysOnly` | crates/soroban-ret/src/pipeline.rs:2120-2155 | a repaired expression differs from the original in storage keys that were repairable, and there it holds the hinted key |
| `HintRepair.RepairTouchesBodyKeysOnly` | crates/soroban-ret/src/pipeline.rs:1907-1938 | the same for whole bodies: only walked expressions change, and only in repairable storage keys |
| `HintRepair.RepairIdle` | crates/soroban-ret/src/pipeline.rs:1940-2118 | an expression is left as it is exactly when nothing in it is repairable |
| `HintRepair.RepairShrinks` | crates/soroban-ret/src/pipeline.rs:1940-2118 | grading finds no more unknown nodes in a repaired expression |
| `HintRepair.RepairBody` | crates/soroban-ret/src/pipeline.rs:1907-1938 | for whole bodies: nothing is left to repair, a second repair with any key changes nothing, and the unknown count does not rise |
| `TailSynthesis.ChooseEnding` | crates/soroban-ret/src/codegen/module.rs:234-282 | which of the four endings a body gets is decided by exactly the stated conditions, and a tail is synthesized exactly in two of them |
| `Tails.UnitExactlyWhen` | crates/soroban-ret/src/codegen/module.rs:379-435 | a statement passes as unit exactly when each place at which it can end does: a loop, an `if` without `else`, an empty block, or one of the operations without a result |
| `Tails.EndingsExactly` | crates/soroban-ret/src/codegen/module.rs:300-374 | `Ok(())` is appended exactly to bodies that are to return Result<(), E> and do not end in `return`, `todo!()` exactly to non-empty bodies that are to return another value and have unit tails only |
| `TailSynthesis.TailsAreDisjoint` | crates/soroban-ret/src/codegen/module.rs:300-374 | the Ok(()) and the todo!() decisions are never both taken |
| `TailSynthesis.StubMeansLogicLost` | crates/soroban-ret/src/recovery.rs:315-338 | for an empty body without host calls and raw signature, grading says logic lost exactly when codegen emits the stub or Ok(()); the second happens only for Result with a unit ok type, where the two disagree |
| `TailSynthesis.ResultUnitIsCalledLost` | crates/soroban-ret/src/recovery.rs:315-338 | an empty body of type Result<(), E> is graded as lost and ends with Ok(()) |
| `TailSynthesis.TailIsUnitSound` | crates/soroban-ret/src/codegen/module.rs:379-402 | a statement that passes as unit yields unit at every normal completion, at any nesting |
| `TailSynthesis.StmtsTailIsUnitSound` | crates/soroban-ret/src/codegen/module.rs:405-435 | the same for statement lists |
| `TailSynthesis.TodoTailHidesNoValue` | crates/soroban-ret/src/codegen/module.rs:354-374 | where todo!() is appended no normal completion had a value |
| `TailSynthesis.IfWithoutElseDiscards` | crates/soroban-ret/src/codegen/module.rs:379-402 | an `if` without `else` passes as unit although its only branch does not, and does yield unit |
| `BaseInference.ScoreStmts` | crates/soroban-ret/src/pipeline.rs:4423-4506 | the per-base score of a body is the tally of its scored local reads |
| `BaseReads.ScoredExactly` | crates/soroban-ret/src/pipeline.rs:4451-4506 | scored are exactly the nodes of the expressions outside `for` statements and literal patterns |
| `BaseReads.HitsExactly` | crates/soroban-ret/src/pipeline.rs:4508-4531 | the hits of a layout are the places that read one of its slots that is not bound anew |
| `BaseReads.UsedExactly` | crates/soroban-ret/src/pipeline.rs:4508-4531 | its distinct slots are exactly those that are read somewhere |
| `BaseInference.TallyIgnoresOrder` | crates/soroban-ret/src/pipeline.rs:4444-4449 | the tally does not depend on the order in which reads are merged |
| `BaseInference.SlotsInLayout` | crates/soroban-ret/src/pipeline.rs:4508-4531 | every distinct slot counted lies in the candidate's parameter range and is not rebound |
| `BaseInference.PrefixLen` | crates/soroban-ret/src/pipeline.rs:4378-4389 | the loop finds the length of the filled prefix of a range |
| `BaseInference.PrefixFits` | crates/soroban-ret/src/pipeline.rs:4378-4389 | that length is at most the parameter count |
| `BaseInference.IsBetterThan` | crates/soroban-ret/src/pipeline.rs:4390-4421 | the comparison: a long enough prefix, and then more prefix or equal prefix with more hits |
| `BaseInference.Candidates` | crates/soroban-ret/src/pipeline.rs:4327-4352 | which bases are tried, sorted and without repetition |
| `BaseInference.InferParamLocalBase` | crates/soroban-ret/src/pipeline.rs:4327-4370 | the best-so-far loop returns the preferred base except in exactly one case, in which it returns 0 |
| `BaseInference.OverrideIsJustified` | crates/soroban-ret/src/pipeline.rs:4327-4421 | an override never happens for a preferred base of 0 or at least 2, and otherwise has a fully used prefix of the required length and beats the preferred base on prefix and hits |
| `Scanner.ReplaceOutsideStrings` | crates/soroban-ret/src/codegen/module.rs:472-618 | the six-state loop terminates and writes what the region-wise scan says, for all character sequences |
| `Scanner.DetectOpening` | crates/soroban-ret/src/codegen/module.rs:491-536 | which literal or comment starts at a position, and how long its opener is |
| `Openers.OpensExactlyWhen` | crates/soroban-ret/src/codegen/module.rs:491-536 | a literal or comment starts exactly where one of `//`, `/*`, a quote, a tick, or `r`, hashes and a quote stands |
| `Openers.WholeIsCopied` | crates/soroban-ret/src/codegen/module.rs:545-613 | a whole literal or comment (to the newline, to as many closers as openers, to the first quote that is not escaped, to the quote and hashes of its opener) is copied and what follows is scanned afresh |
| `Openers.UnclosedIsCopied` | crates/soroban-ret/src/codegen/module.rs:545-613 | one that is never closed is copied to the end |
| `Openers.CodeIsReplaced` | crates/soroban-ret/src/codegen/module.rs:537-543 | where none starts a match is replaced, and without a match one character is copied |
| `Openers.SplitsUp` | crates/soroban-ret/src/codegen/module.rs:491-613 | every text starts in one of these three ways |
| `Scanner.StepBlockComment` | crates/soroban-ret/src/codegen/module.rs:595-613 | one round inside nested block comments keeps what is written and what remains to be written equal to the whole |
| `Scanner.ReplaceAllIsLeftmost` | crates/soroban-ret/src/codegen/module.rs:537-543 | code is replaced at the leftmost match first, then after it |
| `Scanner.RefinesExactlyWhen` | crates/soroban-ret/src/codegen/module.rs:491-543 | over all texts the loop equals copying literal and comment regions, as its own openers delimit them, and replacing in code only, exactly when no region can open strictly inside a match, or the substitution never changes anything |
| `Scanner.RawEndsWithCloser` | crates/soroban-ret/src/codegen/module.rs:567-586 | a raw string ends at the first quote followed by its number of hashes |
| `RegionEnds.LineEndsAtNewline` | crates/soroban-ret/src/codegen/module.rs:587-594 | a line comment ends after the first newline or with the text |
| `RegionEnds.QuotedEndsUnescaped` | crates/soroban-ret/src/codegen/module.rs:545-566 | a string or character ends at the first quote that an even number of backslashes precedes, or with the text |
| `RegionEnds.BlockEndsAtBalance` | crates/soroban-ret/src/codegen/module.rs:595-613 | a block comment ends at the first place where openers less closers have come back to zero, or with the text |
| `Scanner.RegionKept` | crates/soroban-ret/src/codegen/module.rs:545-613 | a region that closes before the end of the text closes there whatever follows |
| `Scanner.SecondRunChangesNothing` | crates/soroban-ret/src/codegen/module.rs:468-618 | for substitutions whose texts start alike and part at the second character, a second run changes nothing |
| `Formatter.CollapseEnvSpaces` | crates/soroban-ret/src/codegen/module.rs:453-454 | the two runs in a row are one replacement of both texts in exactly the code regions |
| `Formatter.OneAfterTheOther` | crates/soroban-ret/src/codegen/module.rs:453-454 | for any two settling substitutions that cannot complete each other's matches, one run after the other is one run that tries both |
| `Formatter.FormatterSubstitutions` | crates/soroban-ret/src/codegen/module.rs:453-454 | the pair equals the region-wise replacement of both texts, does not depend on its order and changes nothing when made again |
| `Lifetimes.InertMeetsRustExactlyWhen` | crates/soroban-ret/src/codegen/module.rs:468-522 | with literals as Rust delimits them and lone ticks followed by names, every substitution of a text that opens nothing is confined to code exactly when no tick in code is that of a lifetime |
| `Lifetimes.MeetsRustExactlyWhen` | crates/soroban-ret/src/codegen/module.rs:468-522 | without any condition on the text: all substitutions that meet the machine's own regions meet those of Rust exactly when no tick stands in code |
| `Openers.RustOpensExactlyWhen` | crates/soroban-ret/src/codegen/module.rs:491-536 | a literal or comment of Rust starts exactly at one of these texts, a tick only if a character literal follows |
| `Lifetimes.StringAfterLifetimeIsRewritten` | crates/soroban-ret/src/codegen/module.rs:468-522 | in `f<'a>(){g("it's & env, x")}` the rest of the string after the apostrophe is code to the machine and is rewritten, whatever follows |
| `Lifetimes.LifetimeHidesCode` | crates/soroban-ret/src/codegen/module.rs:517-522 | after a lone tick nothing is replaced: it is taken for the start of a character literal |
| `ByteText.KeptExactlyWhenAscii` | crates/soroban-ret/src/codegen/module.rs:472-618 | the copied bytes become characters of their own and matching needs a character boundary, so text comes out as promised exactly when all of it is ASCII |
| `ByteText.RegionInBytes` | crates/soroban-ret/src/codegen/module.rs:545-613 | a literal or comment spans exactly the bytes of its characters |
| `ByteText.AccentInString` | crates/soroban-ret/src/codegen/module.rs:537-550 | an accented letter in a string comes out as two letters, and in code makes the function panic |
| `Calendar.YearOfEraCorrect` | crates/soroban-ret-bench/src/report_html.rs:461 | the year-of-era formula finds the year that contains the day, over the whole 400-year era |
| `Calendar.DividendsAreNatural` | crates/soroban-ret-bench/src/report_html.rs:457-467 | every dividend but the first is natural, so truncating division is exact there |
| `Calendar.CivilIsDate` | crates/soroban-ret-bench/src/report_html.rs:457-467 | every day number, negative ones included, gives a date of the proleptic Gregorian calendar, leap years respected, with that day number |
| `Calendar.DateRoundTrip` | crates/soroban-ret-bench/src/report_html.rs:457-467 | every date is recovered from its day number |
| `Calendar.EpochIsDayZero` | crates/soroban-ret-bench/src/report_html.rs:456 | day 0 is 1970-01-01 |
| `Calendar.NextDayFollows` | crates/soroban-ret-bench/src/report_html.rs:457-467 | consecutive day numbers are consecutive days |
| `Calendar.UtcPartsExact` | crates/soroban-ret-bench/src/report_html.rs:443-454 | day, hour and minute put together are the timestamp's minute, with hour and minute in range |
| `Lcg.Generator.Next` | crates/soroban-ret-equiv/src/lib.rs:165-170 | one draw multiplies and adds with wrap-around and returns the new state |
| `Lcg.JumpShape` | crates/soroban-ret-equiv/src/lib.rs:165-170 | 2^k draws multiply by a number that is 1 modulo 2^(k+2) and add an odd multiple of 2^k |
| `Lcg.NoRepetition` | crates/soroban-ret-equiv/src/lib.rs:165-170 | no state repeats within 2^64 draws |
| `Lcg.ReachesEverything` | crates/soroban-ret-equiv/src/lib.rs:165-170 | every state is reached from every seed within 2^64 draws |
| `Lcg.OneCycle` | crates/soroban-ret-equiv/src/lib.rs:165-170 | from any seed the states form one cycle of length 2^64 |
| `Lcg.StepIsBijective` | crates/soroban-ret-equiv/src/lib.rs:165-170 | every state has exactly one predecessor |
| `Crc.Crc16` | scripts/fetch_benchmark_wasm.py:77-84 | the nested loops compute the two checksum bytes of the remainder, low byte first |
| `Crc.ShiftByte` | scripts/fetch_benchmark_wasm.py:81-83 | eight rounds of the inner loop multiply the register by x^8 and reduce it |
| `Crc.RegisterIsTheRemainder` | scripts/fetch_benchmark_wasm.py:77-84 | for any message bits the register is the one polynomial of degree below 16 that differs from the message times x^16 by a multiple of the generator |
| `Crc.RemainderIsRemainder` | scripts/fetch_benchmark_wasm.py:77-84 | the same for messages of bytes and the generator x^16 + x^12 + x^5 + 1 |
| `Crc.RemainderAdds` | scripts/fetch_benchmark_wasm.py:77-84 | over messages of one length the remainder is linear |
| `Crc.BurstIsRejected` | scripts/fetch_benchmark_wasm.py:67-75 | a change confined to sixteen bits in a row, the checksum kept, is rejected |
| `Crc.AdjacentBytesAreChecked` | scripts/fetch_benchmark_wasm.py:67-75 | a change of one byte or of two bytes side by side, the checksum kept, is rejected |
| `Crc.StrkeyDecodeContract` | scripts/fetch_benchmark_wasm.py:67-75 | the checks in order: empty input, version byte, checksum of all but the last two bytes |
| `Crc.DecodeInvertsEncode` | scripts/fetch_benchmark_wasm.py:67-75 | every encoded payload is accepted, and decoding returns it exactly when it has 32 bytes |
| `Crc.ChecksumTakenForAddress` | scripts/fetch_benchmark_wasm.py:67-75 | of the encoding of an empty payload the decoder returns the checksum bytes |
| `Crc.AcceptedWasEncoded` | scripts/fetch_benchmark_wasm.py:67-75 | input of any length is accepted exactly when it is the encoding of some payload, and what comes back is that payload exactly for 35 bytes |
| `Sampler.NumberKept` | crates/soroban-ret-equiv/src/lib.rs:150-162 | splitting a 128-bit number into halves keeps it, negative numbers included |
| `Sampler.CandidatesFit` | crates/soroban-ret-equiv/src/lib.rs:173-208 | every candidate fits its parameter, and both ends of the kind's range are candidates |
| `Sampler.RangesExactly` | crates/soroban-ret-equiv/src/lib.rs:173-208 | the range of a kind is that of its bits, with or without a sign |
| `Sampler.BoundariesExactly` | crates/soroban-ret-equiv/src/lib.rs:173-208 | the boundary values of a kind in ascending order: both ends, 0 and 1, -1 for signed kinds, and 2 for unsigned ones of 32 and 64 bits |
| `Sampler.DrawnExactly` | crates/soroban-ret-equiv/src/lib.rs:173-208 | a drawn number is the one of the range that agrees with the draw, or with two draws of which the first is the high half, in its low bits |
| `Sampler.CandidatesFor` | crates/soroban-ret-equiv/src/lib.rs:173-208 | the boundary values and the drawn one, with one draw per 64-bit half |
| `Sampler.GenCases` | crates/soroban-ret-equiv/src/lib.rs:211-243 | the output is the evenly spaced sample of the product; intermediate lists stay within 384 times the largest candidate list |
| `Sampler.Extend` | crates/soroban-ret-equiv/src/lib.rs:219-227 | one parameter more keeps the rows the first vectors of the product, in order |
| `Sampler.ChoicesAreDistinct` | crates/soroban-ret-equiv/src/lib.rs:234-242 | no two cases come from the same choice of candidates |
| `Sampler.FullProductExactlyWhen` | crates/soroban-ret-equiv/src/lib.rs:229-242 | every choice is a case exactly when the product has at most 48 vectors |
| `Sampler.CasesFit` | crates/soroban-ret-equiv/src/lib.rs:211-243 | each case has one argument per parameter, of the parameter's kind and in its range |
| `Sampler.RandomNumbersDiffer` | crates/soroban-ret-equiv/src/lib.rs:211-217 | two 64-bit parameters of one function never get the same random number |
| `Imports.ImportNeeds.ScanTypeDef` | crates/soroban-ret/src/codegen/imports.rs:209-251 | the recursive walk sets exactly the flags of the requested names and clears none |
| `Imports.ImportNeeds.ScanContract` | crates/soroban-ret/src/codegen/imports.rs:61-80 | the scan of signatures, struct fields, union payloads and event parameters requests exactly the names of their types |
| `TypeTables.RequestsExactly` | crates/soroban-ret/src/codegen/imports.rs:209-251 | a name is requested for a type exactly if some type in it asks for it, by the stated table of types, sizes and curves |
| `TypeTables.AliasExactly` | crates/soroban-ret/src/codegen/types.rs:138-160 | each of the seven aliases stands for exactly one size of byte array or the wide integer, under its curve and hint |
| `Imports.TypeRelated` | crates/soroban-ret/src/codegen/types.rs:138-213 | one type and one setting: every name other than BytesN is used exactly if requested, or is an alias that is brought in; BytesN is used and requested by the stated sizes |
| `Imports.RenderItems` | crates/soroban-ret/src/pattern/lifter.rs:344-547 | unions, events, tuple structs and most structs are rendered plainly; once a curve is in use, structs with a field that is a sized byte array or 256-bit number, or a vector of one, are rendered again with aliases |
| `TypeTables.RegeneratedExactly` | crates/soroban-ret/src/pattern/lifter.rs:521-547 | a definition is rendered again exactly if a curve is in use and it is a struct with named fields one of which is a sized byte array, a 256-bit number or a vector of these |
| `Imports.PlainUses` | crates/soroban-ret/src/codegen/types.rs:94-131 | a plainly rendered type uses the names that would be requested without curves, and `Val` and `Error` without their paths |
| `Imports.ImportsMatchExactlyWhen` | crates/soroban-ret/src/codegen/imports.rs:61-80 | for all signatures and type definitions, used names equal requested names plus imported aliases exactly when no plainly rendered type holds `Val`, `Error`, with a curve in use U256, or a sized byte array while no unaliased size occurs anywhere, and no signature or re-rendered struct holds a BLS12-381 size under both curves while no unaliased size occurs |
| `Imports.LostExactly` | crates/soroban-ret/src/codegen/imports.rs:61-80 | the names used and neither requested nor imported are exactly those four, each under its condition |
| `Imports.OneCurveLosesBytesN` | crates/soroban-ret/src/pattern/lifter.rs:522-547 | with one curve, a union case or event of a 64-byte array, or a struct that has one only inside an Option, is written BytesN but BytesN is not requested |
| `Imports.BothCurvesLoseBytesN` | crates/soroban-ret/src/codegen/types.rs:143-157 | with both curves a 48-byte array in a signature is written as BytesN but BytesN is not imported |
| `Imports.ExtraImportsDistinctExactlyWhen` | crates/soroban-ret/src/codegen/imports.rs:14-29 | no name is brought in twice exactly when at most one curve is in use |
| `Imports.NoCurvesNoAliases` | crates/soroban-ret/src/codegen/types.rs:43-90 | without curves the alias-aware rendering is the plain one |
| `Stripper.StripBracedBlocks` | crates/soroban-ret-accuracy/src/ast_compare.rs:1026-1049 | the loop over the shrinking text terminates and performs all rounds |
| `Stripper.CloseBlock` | crates/soroban-ret-accuracy/src/ast_compare.rs:1034-1045 | the depth counter finds the end of the block |
| `Stripper.BlockEndIs` | crates/soroban-ret-accuracy/src/ast_compare.rs:1034-1045 | that end is the first position where the braces are even, or the end of the text |
| `Stripper.RoundsShorten` | crates/soroban-ret-accuracy/src/ast_compare.rs:1026-1049 | each round takes at least the marker and a brace |
| `Stripper.NoBlockIsLeft` | crates/soroban-ret-accuracy/src/ast_compare.rs:1026-1049 | no marker is left that any opening brace follows |
| `Stripper.StripIsIdempotent` | crates/soroban-ret-accuracy/src/ast_compare.rs:1026-1049 | a second run changes nothing |
| `Stripper.StripKeepsOrder` | crates/soroban-ret-accuracy/src/ast_compare.rs:1026-1049 | the result is the source with stretches deleted: surviving characters at strictly increasing positions |
| `Stripper.RoundKeepsBalanceExactlyWhen` | crates/soroban-ret-accuracy/src/ast_compare.rs:1026-1049 | a round keeps balanced text balanced exactly when no closing brace stands between the marker and its block |
| `Stripper.BalanceKeptExactlyWhen` | crates/soroban-ret-accuracy/src/ast_compare.rs:1026-1049 | a whole run keeps balanced text balanced exactly when that holds in every round |
| `Stripper.ForeignBlockIsDeleted` | crates/soroban-ret-accuracy/src/ast_compare.rs:1026-1049 | a marker in front of a closing brace deletes a block it does not own and leaves the text unbalanced |
| `InterfaceScore.ScoreTypes` | crates/soroban-ret-accuracy/src/ast_compare.rs:549-608 | the nested loops compute the exact fraction of points |
| `InterfaceScore.ScoreSignatures` | crates/soroban-ret-accuracy/src/ast_compare.rs:610-670 | the same for signatures |
| `InterfaceScore.ScoreBodies` | crates/soroban-ret-accuracy/src/ast_compare.rs:681-854 | the same for bodies |
| `InterfaceScore.ScoreStructure` | crates/soroban-ret-accuracy/src/ast_compare.rs:856-880 | the same for the structural elements |
| `InterfacePoints.TypesCounted` | crates/soroban-ret-accuracy/src/ast_compare.rs:549-608 | the types score is the share of these half points: two for a type, two for a member, two for the type of a field that is there, one each for the discriminant and the payload of a variant that is there |
| `InterfacePoints.SignaturesCounted` | crates/soroban-ret-accuracy/src/ast_compare.rs:610-670 | the signature score: two for a function, two for its number of parameters, two for each parameter type, one for each name up to leading underscores, two for the return type |
| `InterfacePoints.BodiesCounted` | crates/soroban-ret-accuracy/src/ast_compare.rs:681-854 | the body score: one point for each operation that is there, or for a body with text where the original has no operations |
| `InterfaceScore.TypesFullExactlyWhen` | crates/soroban-ret-accuracy/src/ast_compare.rs:549-608 | the types score lies in [0, 100] and is 100 exactly when every original type and member is present with its scored attributes |
| `InterfaceScore.SignaturesFullExactlyWhen` | crates/soroban-ret-accuracy/src/ast_compare.rs:610-670 | the signature score lies in [0, 100] and is 100 exactly when parameters and return types agree; associated types agree with any |
| `InterfaceScore.AnnotationsFullExactlyWhen` | crates/soroban-ret-accuracy/src/ast_compare.rs:672-679 | the annotation score lies in [0, 100] and is 100 exactly when no annotation is missing |
| `InterfaceScore.BodiesFullExactlyWhen` | crates/soroban-ret-accuracy/src/ast_compare.rs:681-854 | the body score lies in [0, 100] and is 100 exactly when no operation is missing and functions without operations have some text |
| `InterfaceScore.StructureFullExactlyWhen` | crates/soroban-ret-accuracy/src/ast_compare.rs:856-880 | the structure score lies in [0, 100] and is 100 exactly when no structural element is missing |
| `InterfaceScore.OverallFullExactlyWhen` | crates/soroban-ret-accuracy/src/ast_compare.rs:481-493 | the weighted score lies in [0, 100] and is 100 exactly when all five components are |
| `InterfaceScore.SelfComparison` | crates/soroban-ret-accuracy/src/ast_compare.rs:498-547 | an interface compared with itself scores 100 in every component, in bodies and overall exactly when each function without operations has body text |
| `InterfaceScore.KindIsNotScored` | crates/soroban-ret-accuracy/src/ast_compare.rs:549-608 | a struct decompiled as an enum with the same members still scores 100 |

## Left out

- WASM and XDR parsing, the lifter, the structurizer, the optimizer and the emission of expressions: not part of this model.
- Heuristic recoveries that guess intent (getter synthesis, artifact literals, struct-field arms, event parameters, trailing panics) make no claim to keep meaning.
- The other hint repairs (event values, authorization, invoked functions) walk the same tree in the same way as the storage-key repair.
- `run_to_ir`, logging, subprocesses, files, environment variables, remote calls, and the rendering of reports.
- Host functions, what a hole does and how patterns match are parameters of the semantics; each theorem names what it assumes of them.
- A method call evaluates its receiver to a word; a call that changes a local collection in place is an effect of the host, not a store to the variable.
- Expression variants that behave alike share a constructor; the operator tag keeps what tells them apart (storage type, event name, return type, error names).
- Literals stand for the word the program sees; the host's encoding of each kind is modelled only where a pass depends on it (booleans, and None and Some of a search).
- Recovery.ScoreFn: missing host calls are a set, where the source sorts and dedups a list; their order is not modelled.
- BaseInference.ScoreStmts: which positions are scored is taken from the source's walk, which leaves out fallbacks of storage reads and literal patterns.
- HintRepair.RepairBody: positions the source's walk leaves out, such as literal patterns and the bounds of a `for`, are left out here and may still hold a repairable key.
- OptionVoid.FoldPreservesMeaning: for a comparison that is folded into a hole and is not doomed the claim is false; which ones are is decided for names and literals as left operands of `&&` and `||`, and for others one way only.
- ParamLocals.ResolvePreservesMeaning: a body that breaks the condition on its text can still run alike, when the read in question is never executed; conversions in alias bindings must keep the argument's word.
- DeadLets.DropPreservesRuns: a dropped binding must have no use inside a `for` or a literal pattern, because there the claim is false.
- Scanner.ReplaceOutsideStrings: the contract is about sequences of characters, which are the bytes of ASCII text; `ByteText` covers other text. The comment depth is unbounded where the source counts in 32 bits.
- Formatter.CollapseEnvSpaces: the passes on the syntax tree before the two substitutions and the line-joining pass after them are not part of this model.
- Calendar.CivilIsDate: numbers are unbounded; overflow of 64-bit day numbers is not modelled.
- Crc.StrkeyDecodeContract: starts from the bytes; the base-32 text around them is not modelled.
- Crc.Crc16: bytes and register are 16-bit words, a byte being one whose upper half is zero.
- Sampler.GenCases: the seed is a parameter; the hash of the function name that makes it is not modelled.
- Imports.ImportsMatchExactlyWhen: covers the type names of signatures and type definitions; what function bodies request on top, macros, traits and the sorting of the list are not modelled.
- Imports.RenderItems: the soroban-spec-rust library is not part of this model; its types are taken to be the same with full paths, which the code then takes off. A definition is its field and payload types.
- Stripper.StripBracedBlocks: one marker at a time; braces inside string literals count, as they do in the source.
- InterfaceScore.ScoreTypes: scores are exact fractions, not floating-point numbers; per-function details and artifact counts are left out.
- InterfaceScore.ScoreSignatures: the test for associated types and the test for `todo!` are parameters of the proofs; the comparison method passes the source's own.
