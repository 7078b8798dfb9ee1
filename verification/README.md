# ConfigFlux: a verified model of the constraint compiler, linker and diff

ConfigFlux compiles configuration chunks written by independent owners into one package. The
package carries a Boolean root (a BDD over symbols `facet.value`) that tools query to learn
which options are open, while `resolve` evaluates the same policy against one concrete
selection. The two must never disagree. This project models the code that makes them agree, and
the stages around it, in Dafny 4.11:

- **Conditions** (`Conditions`, `ConditionText`, `ConditionRoundTrip`, `ExactRoundTrip`,
  `ParserExtension`, `Grammar`, `SelectionEval`, `PartialExact`, `FacetComparison`): the condition
  language, its parser and serializer, three-valued evaluation and how much it finds out, and the
  expansion of facet-to-facet comparisons.
- **Constraint compiler** (`Bdd`, `Builder`, `BddFile`, `FileReader`, `Emitter`, `ClauseSynthesis`,
  `SynthesizedText`, `ConstraintModel`, `Lowering`, `PackageModel`, `UndeclaredGuards`,
  `Agreement`, `OpenOptions`): the BDD builder with its memo tables, the canonical file and the
  solver's reader of it, the synthesized clauses and lowered conjuncts, and the theorem that, for
  closed facets, the emitted bytes accept exactly the selections `resolve` accepts.
- **Whole-model verifier** (`Identifiers`, `FacetRules`, `Implication`, `ImplicationExact`,
  `Graphs`, `DepthFirst`, `DepthCeiling`, `FirstPaths`, `Dependencies`, `LinkRules`, `Summaries`):
  the rules at both scopes, the condition implication engine and the coloured depth-first walk.
- **Ingest, index and link** (`Ingest`, `Index`, `HeaderMerge`, `Link`): the stateful ingester, the
  integrity check, and the linker with its lock.
- **Diff and quoting** (`Diff`, `DiffComplete`, `ShellHint`): the structural diff, and the shell
  hint read back by word splitting, single quotes and backslash as in sections 2.2.1, 2.2.2 and
  2.3 of the POSIX Shell Command Language.

`Sorting` and `Options` hold what the others share. Code that updates state is written that way:
the BDD builder, the cycle detector and the ingester are classes, and loops are methods with
invariants, each proved against a function or a property. `dafny verify dfyconfig.toml` checks
everything.

## Where the code does less than it says

Each of these is a claim made by the documentation, a comment or a design promise that does not
hold of the code. The model follows the code. After each claim come the inputs on which it fails,
and then the lemma that says exactly when it holds.

- *Serialized conditions parse back to the same tree, if names and literals are identifiers.* Not if
  a chain is nested to the right (`RoundTripCounterexample`) or a tag is named like a Boolean
  (`BooleanTagLost`). Beyond the identifiers promised for, a literal with a single quote does not
  come back either, and can even change the meaning (`QuotedLiteralLost`). Exactly:
  `RoundTripExactly`, and `ReadsBackIff` up to nesting, which keeps the meaning (`NormalMeans`).
- *Validated facets always yield readable clauses.* A facet named `true` or `false` validates, and
  then the model is refused (`ReservedIntroductionFails`). Exactly: `ModelReadableIff`,
  `BackstopFiresOnReserved`.
- *A validated constraint is readable later.* Validation trims Unicode white space, the later readers
  skip only the grammar's (`PaddedTextSlipsThrough`). Exactly: `ValidatedConstraintsOk`.
- *An expanded comparison agrees with resolve.* Two values outside the declared domains of open
  facets count as equal (`UnsafeIsWrong`). Exactly: `AgreementExactIff`.
- *A constraint means to the solver what it means to resolve.* With open facets, a test of a value
  the facet does not declare is a free symbol, so the solver offers options no selection can take
  (`StrayIsOffered`). Exactly: `OffersTakableIff`.
- *What three-valued evaluation leaves unknown is open.* Not if a facet is named twice
  (`NamedTwiceIsMissed`), as the comment on `eval_partial` admits. It is, for every expression that
  names no facet twice: `PartialIsExact`.
- *Condition implication is decided exactly.* A compared tag gets two values beyond the literals,
  too few when comparisons form a cycle: three pairwise different facets are "impossible"
  (`CycleIsWrong`). Exactly: `ExactIffForest`.
- *Inclusion is closed under dependencies.* It inherits that fault
  (`ComparisonCycleBreaksInclusion`). Exactly: `ClosedIffForest`.
- *Chains deeper than 1000 are refused.* It depends on how names sort (`TailChainAccepted`,
  `HeadChainRefused`). Exactly: `TooDeepIff`, and `ChainTooDeepIff` for inheritance.
- *At unit scope a bad value is still reported.* Not after an unresolved name
  (`UnresolvedNameHidesBadValue`). Exactly: `UnitScopeReports`.
- *Unit scope defers what it cannot resolve.* A slot with an accepts list, whose binding is local and
  whose catalogue is imported, is refused. Exactly: `ImportedCatalogueIsNotDeferred`.
- *What links can be emitted, and its root stands for its selections.* An accepts list guarded by a
  condition that compares an undeclared facet makes the model unreadable (`LinkedButRefused`;
  exactly: `PackageReadableIff`). One that tests an undeclared facet leaves a free symbol in the
  root (`FreeGuard`; exactly: `RootsHonourIff`; what the root then means: `PackageRootMeans`).
- *Ingest leaves the repository as it was on error.* `merge_partial` is not atomic
  (`StrayDefinition`, `StrayIsUnrecorded`). Exactly: `AtomicIff`; what always survives:
  `FailedMergeKeepsWeak`.
- *Argument order reaches nothing the linker says.* It reaches the two hashes in the duplicate-unit
  diagnostic (`DiagnosticFollowsOrder`), though never the rule nor the unit
  (`DuplicateUnitsAlwaysRefused`). Exactly: `OrderIndependentIff`.
- *Every difference is reported.* Not between components that are not objects
  (`ShapelessComponentIsInvisible`), copies in an earlier root (`EarlierCopyIsInvisible`), or
  components that move between roots (`MovedComponentIsInvisible`). Exactly: `EmptyIffViewsAgree`
  on all payloads, `EmptyAndInPlaceIffEqual` on payloads of the documented shape.

## Model

| member | source | states |
|---|---|---|
| `Agreement.SolverAgreesWithResolve` | compiler/src/compiler_core.rs:635-776 | With every facet closed, an assignment satisfies the root iff, on declared symbols, it is the indicator of exactly one total selection that satisfies every constraint. Both directions, any selectors. |
| `Agreement.PickedUnique` | compiler/src/compiler_core.rs:701-776 | An assignment is the indicator of at most one total selection of the declared facets. |
| `Agreement.EmittedFileAgrees` | compiler/src/ccm_emitter.rs:621-728 | The same about the bytes, within 32 bits: read with literal offsets and codes they are true of a set of variables iff those stand for an accepted total selection, and the solver accepts the file and reads that function from it. |
| `Agreement.EmittedTableAgrees` | compiler/src/ccm_emitter.rs:621-728 | The bytes are the file of a node table with that function, and of no other table that fits its fields. |
| `Agreement.OptionValidityExact` | compiler/src/compiler_core.rs:701-776 | With every facet closed, "root and f.v" is satisfiable iff some total selection that takes v for f satisfies every constraint. |
| `OpenOptions.SatisfyingSpells` | compiler/src/compiler_core.rs:701-776 | Open facets included: when constraints test declared values only, every assignment that satisfies the root spells, on the declared symbols, a legal selection that resolves. |
| `OpenOptions.OpenOptionValidity` | compiler/src/compiler_core.rs:701-776 | Open facets included: for constraints that test declared values and compare facets safely, an option is satisfiable with the root iff some resolving selection takes it. |
| `OpenOptions.StrayIsOffered` | compiler/src/compiler_core.rs:701-748 | Under the policy that an open facet take a value it does not declare, every declared value of that facet is offered and none can be taken. |
| `OpenOptions.OffersTakableIff` | compiler/src/compiler_core.rs:701-776 | For all constraint lists whose undeclared values come from a given set, every declared option offered can be taken iff the set is empty. |
| `Agreement.WithoutCardinality` | compiler/src/compiler_core.rs:701-748 | Without the cardinality conjuncts, under the policy `f == v`, every symbol is offered although no other value of f can be taken: the witness that the conjuncts are needed. |
| `Agreement.LegalSelectionsAgree` | compiler/src/compiler_core.rs:701-748 | Open facets included: for constraints that compare facets safely, the indicator of a legal selection satisfies the root iff resolve accepts the selection. |
| `Agreement.AgreementExactIff` | compiler/src/conditions/facet_compare.rs:110-148 | All constraint lists whose comparisons come from a given set of pairs agree with resolve on every legal selection iff every pair is safe. |
| `Agreement.ComparisonPolicyAgrees` | compiler/src/conditions/facet_compare.rs:110-148 | For a policy that compares two facets with either operator, root and resolve agree at a selection iff the expansion is right about that selection. |
| `Agreement.ComparisonPolicyExactIff` | compiler/src/conditions/facet_compare.rs:110-148 | Root and resolve agree on every legal selection of such a policy iff the pair of facets is `Safe`; open facets make the unrestricted claim false. |
| `PackageModel.PackageRootMeans` | compiler/src/compiler_core.rs:611-647 | For every linked summary with closed facets and a readable model: an assignment satisfies the root iff it spells a total selection that contradicts no clause, of each id the last, obeys every derive table, and takes an accepted entry wherever the guarding condition holds. |
| `PackageModel.DeclaredGuardsMean` | compiler/src/compiler_core.rs:611-647 | Where the component conditions keep to declared facets, that is: some selection spelled by the assignment honours the package. |
| `PackageModel.PackageReadableIff` | compiler/src/lowering.rs:131-174 | With valid facets and authored constraints the model of a linked summary is readable iff the conditions guarding accepts lists compare declared facets only. |
| `PackageModel.ExportedNamesApart` | compiler/src/link_verify.rs:1520-1536 | Facets and bindings that are exported have distinct ids in a summary that passed the unique-export rule. |
| `UndeclaredGuards.LinkedButRefused` | compiler/src/lowering.rs:282-287 | A summary that passes the link rules and whose model is refused: its component condition compares an undeclared facet. |
| `UndeclaredGuards.FreeGuard` | compiler/src/lowering.rs:282-287 | A summary that links and is readable, and an assignment with an undeclared symbol on: the root refuses it although the selection it spells honours the package. |
| `UndeclaredGuards.RootsHonourIff` | compiler/src/lowering.rs:282-287 | The roots of all linked readable packages whose conditions test undeclared symbols only from a given set stand, on every assignment, for the selections that honour the package, iff the set is empty. |
| `PackageModel.DeclaredFacetsFromSummary` | compiler/src/compiler_core.rs:476-510 | A binding whose catalogue is known is a closed facet over its entries with the binding's default; every other facet is as authored, open or closed, without a default; there are no others. |
| `PackageModel.DomainSources` | compiler/src/interface_summary.rs:245-253 | The link rules and the emitter read a name alike where facets and bindings are apart; otherwise a rule reads the facet and the emitter the binding. |
| `PackageModel.ConditionModelFromSummary` | compiler/src/compiler_core.rs:611-647 | Constraints: of each id the last clause, under strictly ascending ids, then the lowered conjuncts. Clauses: an introduction for every symbol a parseable selector names or a facet declares, and no other. |
| `PackageModel.CcmConstraintsMean` | compiler/src/compiler_core.rs:611-617 | For every summary and selection: no constraint is contradicted iff the lowered conjuncts are not and, for every clause whose id no later clause has, its text parses and is not contradicted. |
| `PackageModel.AuthoredAre` | compiler/src/compiler_core.rs:611-617 | The authored part is those clauses, each once, ids strictly ascending. |
| `PackageModel.LoweredOkIff` | compiler/src/lowering.rs:131-174 | The lowered conjuncts of a linked summary pass as constraints iff the conditions guarding accepts lists do. |
| `ConstraintModel.RootMeans` | compiler/src/ccm_emitter.rs:569-608 | An assignment satisfies the folded root of any readable model iff every facet is one-hot as its kind demands and every constraint holds over the assignment. |
| `ConstraintModel.ParseConditionModel` | compiler/src/ccm_emitter.rs:569-608 | Succeeds iff every text parses and every compared facet is declared; then the conjuncts are, place by place, the clauses, the constraints and the cardinality texts; a refusal names an unreadable text. |
| `ConstraintModel.SelectorsAssertNothing` | compiler/src/compiler_core.rs:544-580 | Every introduction clause is readable and always true, and the clauses name exactly the symbols of parseable selectors and declared values. |
| `ConstraintModel.AllCardinalityHolds` | compiler/src/compiler_core.rs:749-776 | The synthesized cardinality texts are readable and together say: exactly one value of a closed facet, at most one of an open facet. |
| `ConstraintModel.ModelReadableIff` | compiler/src/compiler_core.rs:807-813 | For validated facets the whole model is readable iff no facet is named `true` or `false` and every constraint parses and compares declared facets. |
| `ConstraintModel.UnrepresentableFacetSymbol` | compiler/src/compiler_core.rs:867-878 | The first declared symbol, by facet and declaration order, whose introduction does not parse; none iff all parse. |
| `ConstraintModel.BackstopFiresOnReserved` | compiler/src/compiler_core.rs:818-878 | For validated facets that search finds something iff a facet is named `true` or `false`. |
| `ConstraintModel.ValidatedIsUsable` | compiler/src/link_verify.rs:531-585 | Validated facets can be written as clauses iff none is named like a Boolean literal. |
| `ConstraintModel.ValidatedConstraintsOk` | compiler/src/link_verify.rs:896-1026 | Constraints accepted after trimming are readable untrimmed, by the emitter and by resolve, iff the white space around each is white space to the grammar. |
| `ConstraintModel.UntrimmedReads` | compiler/src/link_verify.rs:905-925 | A text whose trimmed form parses, parses itself to the same expression if it is plainly padded and fails otherwise. |
| `ConstraintModel.PaddedTextSlipsThrough` | compiler/src/link_verify.rs:905-925 | A vertical tab before `true` passes validation and is then unparseable. |
| `ClauseSynthesis.SelectorSymbolsMean` | compiler/src/compiler_core.rs:663-672 | The collected list holds exactly the symbols of the predicates in the condition. |
| `ClauseSynthesis.SynthesizeSelectorSymbols` | compiler/src/compiler_core.rs:663-672 | One introduction per distinct symbol, in the order of first predicates from left to right. |
| `ClauseSynthesis.SynthesizeFacetClauses` | compiler/src/compiler_core.rs:691-699 | One introduction per declared value, facets ascending and values in declared order. |
| `ClauseSynthesis.CcmClauses` | compiler/src/compiler_core.rs:544-580 | First what the selectors introduce, each text once in the order of first places, unparseable ones introducing nothing; then, facet by facet ascending, each value as declared. |
| `ClauseSynthesis.FacetCardinality` | compiler/src/compiler_core.rs:749-776 | Exactly-one for a closed facet, pairwise exclusion for an open one, and the short forms for one value. |
| `ClauseSynthesis.SynthesizeCardinality` | compiler/src/compiler_core.rs:749-776 | The cardinality texts of all facets, ascending by id. |
| `SynthesizedText.IntroductionParses` | compiler/src/compiler_core.rs:807-813 | An introduction (the facet equals the value, or differs) parses to a tautology over that one symbol. |
| `SynthesizedText.ReservedIntroductionFails` | compiler/src/compiler_core.rs:807-813 | For a facet named `true` or `false` no introduction parses. |
| `SynthesizedText.CardinalityReads` | compiler/src/compiler_core.rs:749-776 | Each cardinality text parses to its expression and names only values of its facet. |
| `SynthesizedText.CardinalityMeans` | compiler/src/compiler_core.rs:749-776 | All of a facet's cardinality expressions hold iff the facet has exactly one (closed) or at most one (open) value on. |
| `Bdd.Canonical` | compiler/src/ccm_emitter/bdd.rs:474-490 | In a reduced ordered table two references with the same function are the same reference. |
| `Bdd.CofactorSat` | compiler/src/ccm_emitter/bdd.rs:516-523 | Fixing the top variable of a node gives its high or its low child. |
| `Builder.BddBuilder.constructor` | compiler/src/ccm_emitter/bdd.rs:168-203 | An empty, valid builder; the memo cap is at least one. |
| `Builder.BddBuilder.ClearMemos` | compiler/src/ccm_emitter/bdd.rs:326-389 | Memos go, nodes and the unique table stay; the cap never grows, stays above its floor, and is left alone without a budget. |
| `Builder.BddBuilder.MkNode` | compiler/src/ccm_emitter/bdd.rs:474-490 | A reference whose function chooses between the two children on the variable; the table stays reduced and shared. |
| `Builder.BddBuilder.Var` | compiler/src/ccm_emitter/bdd.rs:391-393 | A reference true exactly where the variable is on. |
| `Builder.BddBuilder.Not` | compiler/src/ccm_emitter/bdd.rs:395-417 | A reference for the negation, whatever the memo holds; earlier references keep their meaning. |
| `Builder.BddBuilder.And` | compiler/src/ccm_emitter/bdd.rs:419-433 | A reference for the conjunction, whatever the memo holds; earlier references keep their meaning. |
| `Builder.BddBuilder.Or` | compiler/src/ccm_emitter/bdd.rs:435-449 | A reference for the disjunction, whatever the memo holds; earlier references keep their meaning. |
| `Builder.BddBuilder.Apply` | compiler/src/ccm_emitter/bdd.rs:492-514 | The Shannon expansion step is right for both gates, and recursion terminates. |
| `Builder.ShannonGate` | compiler/src/ccm_emitter/bdd.rs:492-514 | A choice between the gate of the low and of the high cofactors is the gate of the operands. |
| `Builder.ShannonNegation` | compiler/src/ccm_emitter/bdd.rs:395-417 | A choice between the negated children is the negation. |
| `BddFile.CollectReachable` | compiler/src/ccm_emitter/bdd.rs:556-567 | The per-level lists gain exactly the nodes reachable from the root, each once. |
| `BddFile.OrderedNodes` | compiler/src/ccm_emitter/bdd.rs:525-554 | The renumbered table is in file form (bottom level first, children before parents, sorted, nothing unreachable) and its root has the function of the given root. |
| `BddFile.FileIsCanonical` | compiler/src/ccm_emitter/bdd.rs:525-554 | Two tables in file form with the same function are equal, node by node: the file does not depend on how the builder got there. |
| `BddFile.Serialize` | compiler/src/ccm_emitter/bdd.rs:451-472 | The bytes are the file of the canonical table; and if ids and variables fit 32 bits, reading them by offsets (root word at 20, records of 16 bytes from 24, the two codes for the constants) gives the function of the root at every setting. |
| `BddFile.FileBytesInjective` | compiler/src/ccm_emitter/bdd.rs:451-472 | Equal bytes come from equal tables and roots, for tables that fit 32-bit fields. |
| `BddFile.BytesDecideTheFunction` | compiler/src/ccm_emitter/bdd.rs:451-472 | Two serialized roots have the same bytes iff they have the same function. |
| `BddFile.FileParts` | compiler/src/ccm_emitter/bdd.rs:451-472 | A 24-byte header, two terminal records and 16 bytes per node. |
| `BddFile.HeaderReads` | compiler/src/ccm_emitter/bdd.rs:451-460 | Magic `CCMB`, version 1 and three zero bytes; then the little-endian words variable count, node count, 1, and the root: 0xFFFFFFFF for false, 0xFFFFFFFE for true, else its id. |
| `BddFile.RecordReads` | compiler/src/ccm_emitter/bdd.rs:596-602 | The record of an id holds variable, low and high as words at offsets 0, 4 and 8 and four zero bytes; ids 0 and 1 are the terminals with their codes. |
| `BddFile.FileValueIsSat` | compiler/src/ccm_emitter/bdd.rs:451-472 | Following the raw records from the root word gives the function of the table. |
| `BddFile.FormFits` | compiler/src/ccm_emitter/bdd.rs:525-554 | A canonical table tests declared variables only, so it fits its fields. |
| `FileReader.ParseBddBin` | solver/src/ccm_format.rs:575-750 | Accepts iff header, lengths, flags, padding, terminals, variable ranges, post-order and both reducedness rules hold, and then returns the decoded table; a refusal names the first check that fails. |
| `FileReader.Rebuild` | solver/src/backend_oxidd.rs:347-458 | Rebuilding bottom-up gives the function of the root, a code or a record; none iff the root is out of range. |
| `FileReader.FileAccepted` | solver/src/ccm_format.rs:575-750 | The reader accepts every file of a well-formed table that fits, and sees that table, record by record, and its root. |
| `FileReader.SerializedAccepted` | solver/src/ccm_format.rs:575-750 | What `serialize` writes within 32 bits the solver accepts and reads as the function of the root. |
| `Emitter.CompilePredicate` | compiler/src/ccm_emitter.rs:881-895 | Refused iff the symbol has no variable; otherwise denotes the predicate. |
| `Emitter.CompileExpr` | compiler/src/ccm_emitter.rs:730-879 | Succeeds iff every symbol has a variable and no comparison is left; then the reference denotes the expression and earlier references keep their meaning. |
| `Emitter.CompileFold` | compiler/src/ccm_emitter.rs:766-794 | Any number of children, none included: the accumulator denotes `any_of` or `all_of`. |
| `Emitter.CompileExactlyOne` | compiler/src/ccm_emitter.rs:829-858 | The at-least-one fold and the pairwise loop denote exactly-one for every number of children. |
| `Emitter.AtMostOne` | compiler/src/ccm_emitter.rs:838-856 | The nested loop visits each pair once and denotes the conjunction of the exclusions. |
| `Emitter.ExactlyOneEncoding` | compiler/src/ccm_emitter.rs:829-858 | At least one, and no two of them, is exactly one; for every list, including lists of none and one. |
| `Emitter.FoldRoot` | compiler/src/ccm_emitter.rs:621-668 | For every memo cap, memory budget and schedule of memo drops the root denotes the conjunction of all expressions. |
| `Emitter.BuildBddBin` | compiler/src/ccm_emitter.rs:621-728 | Bytes are produced iff every expression compiles, and they are the canonical file of the conjunction. |
| `Emitter.FileMeans` | compiler/src/ccm_emitter.rs:687-728 | Within 32 bits, both the raw reading of the bytes and the solver's give the value of the expression at every setting. |
| `Emitter.FileDeterminedByMeaning` | compiler/src/ccm_emitter.rs:687-728 | Two builds whose conjunctions mean the same give the same bytes: caps, budgets and expression order do not show. |
| `Conditions.LeavesDecide` | compiler/src/conditions/ast.rs:9-47 | An expression means the same in two worlds that agree on its leaves. |
| `Conditions.CountTrueIsExactlyOne` | compiler/src/conditions/selection_eval.rs:212-229 | A count of one is: some holds, and no two do. |
| `ExactRoundTrip.ReadsBackIff` | compiler/src/conditions/rewrite.rs:181-244 | For every expression: parsing its serialized text gives it back with its and-chains and or-chains nested to the left iff it is printable (grammar names, calls with two arguments, no single quote in a literal). |
| `ExactRoundTrip.RoundTripExactly` | compiler/src/conditions/rewrite.rs:181-244 | For every expression: it comes back as the very same tree iff it is printable and its chains were nested to the left already. |
| `ExactRoundTrip.BooleanTagLost` | compiler/src/conditions/rewrite.rs:101-106 | A tag named `true` is left-nested, and unreadable once written. |
| `ExactRoundTrip.QuotedLiteralLost` | compiler/src/conditions/rewrite.rs:181-244 | A literal that was parsed from double quotes and holds single quotes is written so that it reads as a disjunction: even the meaning changes. |
| `ExactRoundTrip.ConditionScan` | compiler/src/conditions/ast.rs:49-298 | The literals of a parsed condition are exactly what stands in quotes in its text, in order. |
| `Grammar.PredicateReads` | compiler/src/conditions/ast.rs:213-253 | For every tag and value: `tag == 'value'` and `tag != 'value'` read as those predicates. |
| `Grammar.DoubleQuotedReads` | compiler/src/conditions/ast.rs:213-253 | The same in double quotes for a value that holds a single quote. |
| `Grammar.ComparisonReads` | compiler/src/conditions/ast.rs:213-253 | `l == r` and `l != r` read as facet comparisons. |
| `Grammar.GroupReads` | compiler/src/conditions/ast.rs:90-131 | Of any text that parses: parentheses keep it, and `!` before them negates it. |
| `Grammar.AndReads` | compiler/src/conditions/ast.rs:78-100 | Of any two texts that parse: `&&` conjoins them, and binds less than `!`. |
| `Grammar.AndChainReads` | compiler/src/conditions/ast.rs:78-88 | Chains nest to the left. |
| `Grammar.OrReads` | compiler/src/conditions/ast.rs:66-76 | Of any two texts that parse: two bars disjoin them. |
| `Grammar.OrOfAndReads` | compiler/src/conditions/ast.rs:66-88 | Two bars bind less than `&&`. |
| `Grammar.AnyOfReads` | compiler/src/conditions/ast.rs:133-211 | `any_of` of any list of texts that parse; one argument is refused. |
| `Grammar.AllOfReads` | compiler/src/conditions/ast.rs:133-211 | `all_of` likewise. |
| `Grammar.ExactlyOneOfReads` | compiler/src/conditions/ast.rs:133-211 | `exactly_one_of` likewise. |
| `ConditionRoundTrip.NormalMeans` | compiler/src/conditions/rewrite.rs:181-244 | Nesting to the left does not change the meaning, in any world. |
| `ConditionRoundTrip.RoundTripCounterexample` | compiler/src/conditions/rewrite.rs:181-244 | `a && (b && c)` does not come back as it was. |
| `ConditionRoundTrip.SpellText` | compiler/src/compiler_core.rs:901-915 | A predicate written by the clause builders reads back, quotes chosen by content, whatever follows it. |
| `ConditionRoundTrip.BooleanTagFails` | compiler/src/conditions/ast.rs:213-268 | No text that compares a facet named `true` or `false` parses. |
| `ParserExtension.Parenthesized` | compiler/src/lowering.rs:282-287 | A parsed condition means the same inside parentheses, whatever follows them. |
| `ParserExtension.TrailingSpace` | compiler/src/conditions/ast.rs:49-64 | Text after a condition that the parser stops at leaves it readable iff it is all grammar white space. |
| `ParserExtension.OrExtends` | compiler/src/conditions/ast.rs:66-298 | Whatever the parser stops at may follow a parsed text: same value, same remainder before it. |
| `Identifiers.IsSnakeId` | compiler/src/link_verify.rs:337-368 | Decides exactly the documented regular expression, given by an independent matcher: a lower-case letter, then lower-case letters, digits and single underscores. |
| `Identifiers.CheckUnitName` | compiler/src/link_lock.rs:93-118 | Decides the same pattern with a one-flag loop. |
| `Identifiers.SnakeIdIsPattern` | compiler/src/link_verify.rs:337-368 | The pattern is: a lower-case letter, then no two neighbouring underscores. |
| `Identifiers.SnakeIdIsIdent` | compiler/src/link_verify.rs:337-368 | Every snake id is an identifier of the grammar and has no dot. |
| `Identifiers.SymbolNameInjective` | compiler/src/ccm_emitter.rs:1164-1166 | Distinct pairs of a dotless tag and a value have distinct symbol names. |
| `FacetComparison.UnionInFoldOrder` | compiler/src/conditions/facet_compare.rs:150-158 | Every value of either domain once, in the order of first places in left, then right. |
| `FacetComparison.ExpandEquality` | compiler/src/conditions/facet_compare.rs:110-148 | The expansion holds in an assignment iff the two facets agree value by value over the union of their domains. |
| `FacetComparison.ExpandIsFaithful` | compiler/src/conditions/facet_compare.rs:54-88 | Expansion succeeds iff every compared facet is declared; then it is comparison-free, keeps the meaning and adds only declared symbols. |
| `FacetComparison.ExpandNamesFirst` | compiler/src/conditions/facet_compare.rs:54-88 | A refused expansion names the first undeclared operand of a comparison, from left to right. |
| `FacetComparison.ExpandedEqualityUnderSelection` | compiler/src/conditions/facet_compare.rs:110-148 | Under a selection the expansion is true equality, except that two values outside their domains count as equal and one inside, one outside as different. |
| `FacetComparison.SafeIsRight` | compiler/src/conditions/facet_compare.rs:110-148 | For a safe pair the expansion is right about every legal selection. |
| `FacetComparison.UnsafeIsWrong` | compiler/src/conditions/facet_compare.rs:110-148 | For an unsafe pair some legal selection is judged wrongly. |
| `FacetComparison.ComparisonAgreesIff` | compiler/src/conditions/facet_compare.rs:110-148 | The expansion is right about every legal selection iff the pair is safe. |
| `SelectionEval.EvalExactlyOne` | compiler/src/conditions/selection_eval.rs:212-229 | The pairwise loop computes three-valued exactly-one. |
| `SelectionEval.PartialIsSound` | compiler/src/conditions/selection_eval.rs:171-229 | What evaluation under partial knowledge says, every selection completing it says. |
| `PartialExact.PartialIsExact` | compiler/src/conditions/selection_eval.rs:111-229 | For every expression that names no facet twice, comparisons included, and all knowledge of either shape: `Unknown` iff one completion makes it true and another false; `False` iff all refute it; `True` iff all satisfy it. |
| `PartialExact.RejectsOnlyTheHopeless` | compiler/src/conditions/selection_eval.rs:241-259 | Such a constraint rejects a partial selection iff no completion satisfies it. |
| `PartialExact.NamedTwiceIsMissed` | compiler/src/conditions/selection_eval.rs:157-175 | A facet asked for two values: unknown, although every completion refutes it. |
| `SelectionEval.TotalSelectionDecides` | compiler/src/conditions/selection_eval.rs:241-259 | Under a total selection nothing is unknown and "not contradicted" is truth. |
| `SelectionEval.BoundIsSingletonRestriction` | compiler/src/conditions/selection_eval.rs:49-109 | The two fact sources agree: a bound facet is a facet restricted to one value. |
| `FacetRules.TrimIs` | compiler/src/link_verify.rs:905-925 | Trimming keeps the text from its first to its last character that is not white space. |
| `FacetRules.ValidateFacets` | compiler/src/link_verify.rs:531-634 | Accepts iff every facet is well-formed and no condition tests a closed facet against an undeclared value; a bad declaration is reported at the least id. |
| `FacetRules.OpenNeverGates` | compiler/src/link_verify.rs:586-634 | With only open facets no condition is refused. |
| `FacetRules.ValidateConstraints` | compiler/src/link_verify.rs:896-1026 | Accepts iff every constraint passes; otherwise reports the failure of the least failing id. |
| `FacetRules.CompleteScopeMeans` | compiler/src/link_verify.rs:896-1026 | At `Complete` a constraint passes iff it parses, names declared facets and stays in closed domains. |
| `FacetRules.ConstraintScopesAgree` | compiler/src/link_verify.rs:33-51 | `Complete` implies `UnitLocal`, and they coincide where every name resolves. |
| `FacetRules.UnitScopeReports` | compiler/src/link_verify.rs:930-1026 | At `UnitLocal` a constraint text is accepted iff it parses and every bad value in it comes after an unresolved name. |
| `FacetRules.UnresolvedNameHidesBadValue` | compiler/src/link_verify.rs:930-1026 | For every undeclared facet and every bad value of a closed one: the text naming the undeclared facet first is accepted, the other way round it is refused for the value. |
| `Implication.ConditionExprImplies` | compiler/src/conditions/implication.rs:37-83 | True iff the implication holds on every row of the truth table of collected values and sentinels. |
| `Implication.HoldsForAllAssignments` | compiler/src/conditions/implication.rs:89-113 | The in-place enumeration visits every row and restores its map. |
| `Implication.UniqueSentinel` | compiler/src/conditions/implication.rs:267-280 | A sentinel outside all collected values, found by counting. |
| `Implication.CollectAtomValues` | compiler/src/conditions/implication.rs:180-192 | Exactly the literals each tag is tested against. |
| `Implication.UnifyCompared` | compiler/src/conditions/implication.rs:199-238 | The fixpoint gives both sides of every comparison the same values and adds only what comparisons connect. |
| `Implication.FixpointIsShared` | compiler/src/conditions/implication.rs:199-238 | A tag ends with exactly the literals of the tags its comparisons connect it to. |
| `Implication.ConditionImpliesTyped` | compiler/src/conditions/mod.rs:110-122 | Absent conditions and parse failures on either side, as the callers see them. |
| `ImplicationExact.RefusalIsRight` | compiler/src/conditions/implication.rs:37-83 | A refused implication is really false: some selection refutes it. |
| `ImplicationExact.ComparisonFreeIsExact` | compiler/src/conditions/implication.rs:37-83 | Without comparisons the verdict is exactly implication. |
| `ImplicationExact.ForestIsExact` | compiler/src/conditions/implication.rs:199-238 | Exact as well when the comparisons form a forest: every selection has a row that agrees with it on all leaves. |
| `ImplicationExact.CycleIsWrong` | compiler/src/conditions/implication.rs:199-238 | For every comparison cycle there are conditions that do not imply each other and are said to. |
| `ImplicationExact.ExactIffForest` | compiler/src/conditions/implication.rs:37-83 | The engine is exact for all conditions comparing along given edges iff those edges form a forest. |
| `Graphs.NotForestHasCycle` | compiler/src/conditions/implication.rs:199-238 | Edges that are not a forest contain a simple cycle. |
| `DepthFirst.Detector.DetectCycle` | compiler/src/link_verify.rs:1162-1202 | The in-place walk does what the walk on values does, with the same stack and colours. |
| `DepthFirst.CheckAcyclic` | compiler/src/link_verify.rs:1107-1202 | Acceptance means no cycle and no missing parent; a refusal names a real cycle, a real missing parent, or a path as long as the ceiling. |
| `DepthFirst.VisitKeeps` | compiler/src/link_verify.rs:1162-1202 | Every visit keeps the invariant: a node is in progress iff it is on the stack, finished nodes are closed under edges and ordered after what they point at. |
| `DepthFirst.CheckIsRight` | compiler/src/link_verify.rs:1107-1202 | Over all roots, in their order: acceptance is sound and every refusal justified. |
| `DepthFirst.ShallowIsExact` | compiler/src/link_verify.rs:1107-1202 | Where no path exceeds the ceiling, acceptance is exactly acyclicity with all parents known. |
| `FirstPaths.TooDeepIff` | compiler/src/link_verify.rs:1107-1202 | An acyclic graph without unknown targets is refused as too deep iff the first path to some node is longer than the ceiling: the path from the least root that leads to the node, on to the first successor that still does. |
| `FirstPaths.AcceptedIff` | compiler/src/link_verify.rs:1107-1202 | Accepted iff acyclic, all targets known, and no first path longer than the ceiling: the verdict from the graph and its names alone. |
| `FirstPaths.FirstPathUnique` | compiler/src/link_verify.rs:1162-1202 | An acyclic graph has at most one first path to a node. |
| `FirstPaths.FirstPathExists` | compiler/src/link_verify.rs:1162-1202 | And every node has one. |
| `FirstPaths.VisitFollows` | compiler/src/link_verify.rs:1162-1202 | Every node is found along its first path: the stack at that moment is that path. |
| `FirstPaths.ChainTooDeepIff` | compiler/src/link_verify.rs:1107-1160 | With one successor each: refused iff some node lies a thousand steps or more from the least-named node that leads to it. |
| `DepthCeiling.TailFirstIsAccepted` | compiler/src/link_verify.rs:1162-1202 | A walk over nodes listed after everything they point at never deepens, so no length is refused. |
| `DepthCeiling.TailChainAccepted` | compiler/src/link_verify.rs:1162-1202 | A chain of any length whose names ascend from the tail is accepted. |
| `DepthCeiling.HeadFirstIsRefused` | compiler/src/link_verify.rs:1162-1202 | Entering a chain longer than the ceiling at its head is refused, at the node past the ceiling. |
| `DepthCeiling.HeadChainRefused` | compiler/src/link_verify.rs:1162-1202 | The same chain with names ascending from the head is refused: the ceiling depends on names. |
| `Dependencies.ValidateComponentDependencies` | compiler/src/link_verify.rs:192-285 | Accepts iff every target resolves for the scope, every edge's conditions are compatible and the walk accepts; every refusal shows its reason, and conditions are judged only when all targets resolve, cycles sought only when all conditions agree. |
| `Dependencies.InclusionIsClosed` | compiler/src/link_verify.rs:192-285 | In an accepted model whose comparisons form a forest, under every selection a component is included only with everything it transitively depends on. |
| `Dependencies.ComparisonCycleBreaksInclusion` | compiler/src/link_verify.rs:192-285 | For every comparison cycle an accepted model and a selection that includes a component without its dependency. |
| `Dependencies.ClosedIffForest` | compiler/src/link_verify.rs:192-285 | All accepted models comparing along given edges include closed sets iff the edges form a forest. |
| `Dependencies.AcceptedIsAcyclic` | compiler/src/link_verify.rs:192-285 | Accepted at either scope, no chain of `depends_on` declarations returns to its start. |
| `Dependencies.AcceptedIff` | compiler/src/link_verify.rs:192-285 | Accepted iff every target resolves, every edge is compatible, no chain of declarations returns, and no first path is longer than the ceiling. |
| `Dependencies.TargetsInOrder` | compiler/src/link_verify.rs:196-206 | The walk follows the declared targets, each once, in the order of first declaration. |
| `Dependencies.DependencyScopesAgree` | compiler/src/link_verify.rs:33-51 | `Complete` implies `UnitLocal`, and they coincide where every target resolves. |
| `Dependencies.ValidateDefinitionInheritance` | compiler/src/link_verify.rs:162-177 | Acceptance means no chain of parents returns and, at `Complete`, every parent is known; a refusal shows the returning chain, a chain of 1001 definitions, or the unknown parent. |
| `Dependencies.InheritanceScopesAgree` | compiler/src/link_verify.rs:162-177 | `Complete` implies `UnitLocal`, with identical outcomes where every parent is known. |
| `Dependencies.InheritanceAcceptedIff` | compiler/src/link_verify.rs:1107-1160 | Over the `inherits` declarations: accepted iff, at `Complete`, every parent is known, no chain of parents returns to its start, and no chain longer than 1000 starts at the least-named definition that leads to its end. |
| `LinkRules.ValidateUniqueExports` | compiler/src/link_verify.rs:1482-1536 | Accepts iff no id of any namespace, nor a facet and a binding together, is exported twice; otherwise reports the least id of the first such namespace. |
| `LinkRules.ValidateBindingLinks` | compiler/src/link_verify.rs:1606-1695 | Accepts iff every binding link is well-formed for the scope; otherwise reports the least that is not. |
| `LinkRules.ValidateRequirements` | compiler/src/link_verify.rs:1719-1813 | Accepts iff every slot is, for the scope, and the accepts lists intersect. |
| `LinkRules.ValidateAcceptsIntersection` | compiler/src/link_verify.rs:1821-1871 | Accepts iff every narrowed binding keeps a catalogue entry; otherwise names the least that keeps none. |
| `LinkRules.AcceptedBindingIsChoosable` | compiler/src/link_verify.rs:1719-1871 | After acceptance every binding with an accepts list has an entry that is in its catalogue and in all its lists. |
| `LinkRules.EmptyIntersectionRefused` | compiler/src/link_verify.rs:1821-1871 | If no entry of the catalogue is in all lists, the model is refused at either scope. |
| `LinkRules.ValidateMergedSummary` | compiler/src/link_verify.rs:1466-1476 | Reports the first rule broken and on what, and nothing iff the summary keeps all of them. |
| `LinkRules.CompleteImpliesUnitLocal` | compiler/src/link_verify.rs:33-51 | A summary accepted at `Complete` is accepted at `UnitLocal`. |
| `LinkRules.ResolvedScopesCoincide` | compiler/src/link_verify.rs:33-51 | Where every reference resolves the verdicts coincide. |
| `LinkRules.ImportedCatalogueIsNotDeferred` | compiler/src/link_verify.rs:1719-1813 | At `UnitLocal` a slot with an accepts list over an unknown catalogue is deferred iff its binding is imported; a local binding over an imported catalogue is refused. |
| `Lowering.LoweredRootConjuncts` | compiler/src/lowering.rs:131-174 | Binding by binding ascending, its derive pairs in order under `derive:binding:source=value`; then, requirement by requirement, the accepts conjunct under `accepts:component.slot`. |
| `Lowering.AttributionReserved` | compiler/src/lowering.rs:24-31 | No attribution id is a snake-case id, and the two kinds never coincide. |
| `Lowering.AttributionTells` | compiler/src/lowering.rs:81-85 | Of names without `:` and `=`, equal derive ids have equal binding, source and value. |
| `Lowering.SlotAttributionTells` | compiler/src/lowering.rs:87-90 | Of components without a dot, equal accepts ids have equal component and slot. |
| `Lowering.DeriveConjunctMeans` | compiler/src/lowering.rs:183-221 | The text parses and holds iff taking the source value forces the entry. |
| `Lowering.AcceptsConjunctMeans` | compiler/src/lowering.rs:223-287 | The guarded text parses and holds iff, where the component is included, the binding takes an accepted entry. |
| `Lowering.GuardedReads` | compiler/src/lowering.rs:282-287 | A guard reads as "not the condition, or the conjunct", whatever the condition's own operators are. |
| `Lowering.LoweredMeans` | compiler/src/lowering.rs:131-174 | A selection satisfies all lowered conjuncts iff it obeys every derive table and every accepts list. |
| `Lowering.GuardReadableIff` | compiler/src/lowering.rs:282-287 | A guarded conjunct is readable by the emitter iff every facet its condition compares is declared. |
| `Link.OrderObjects` | compiler/src/link.rs:122-140 | The headers sorted by unit, nothing lost, and the first neighbours that share a unit, with their object hashes. |
| `HeaderMerge.MergeHeaders` | compiler/src/link.rs:185-222 | Over the headers by index: units and open facets united; exporters of an id in header order, importers as a set; domains, entries and links from the first header to have the key; requirements and clauses as often as they occur, ascending and stable; selectors in header order. |
| `Link.MergedExports` | compiler/src/link.rs:185-222 | After the merge an id is exported iff some header exports it, and by two units iff two headers do. |
| `Link.CheckDuplicateIds` | compiler/src/link.rs:225-252 | The first id, by namespace and name, exported twice; none iff there is none. |
| `Link.CheckUnresolvedImports` | compiler/src/link.rs:259-314 | The first obligation no export meets; none iff all are met. |
| `Link.CheckInterfaceHashes` | compiler/src/link.rs:144-174 | The first interface reference that is not the linked one; none iff all are. |
| `Link.LinkStageHeaders` | compiler/src/link.rs:100-119 | Succeeds iff units are distinct, exports disjoint, imports provided, interfaces current and the merged summary valid, and the summary is then that merge; a refusal names the first of its kind, by namespace and name or by unit, and only when no earlier check fails. |
| `Link.OrderIndependentIff` | compiler/src/link.rs:100-222 | Every permutation of the headers gives the identical result, the same summary or the same diagnostic with its payload, iff no unit is shared or the objects of the least shared unit have one hash. |
| `Link.NamesFirstTwo` | compiler/src/link.rs:122-140 | If units are shared, the refusal names the least of them and the hashes of its first two objects in the order the headers were given. |
| `Link.DiagnosticFollowsOrder` | compiler/src/link.rs:122-140 | Two objects of one unit with different hashes: exchanging them exchanges the hashes in the diagnostic. |
| `Link.DuplicateUnitsAlwaysRefused` | compiler/src/link.rs:122-140 | If a unit is claimed twice every permutation is refused as a duplicate unit, and only then. |
| `Link.LinkSucceedsIff` | compiler/src/link.rs:100-119 | Success characterised by the headers alone, each interface reference against the header of its unit. |
| `Link.LinkExplained` | compiler/src/link.rs:100-314 | Which diagnostic appears and what it names: the sharing neighbours, the soonest id exported twice, the soonest unmet obligation, the first stale reference, or the broken rule. |
| `Link.BackstopOnlySharedIds` | compiler/src/link_verify.rs:1482-1536 | After the duplicate check the unique-export rule can only fire on an id that is both facet and binding. |
| `Link.CheckLock` | compiler/src/link_lock.rs:171-225 | The lock is kept iff every linked object is pinned and, unless extras are allowed, every pinned unit linked; a mismatch names the least unpinned unit, and otherwise the least pinned unit without an object is named. |
| `Ingest.Compiler.constructor` | compiler/src/compiler_core.rs:102-120 | An empty repository that satisfies the exact invariant. |
| `Ingest.Compiler.MergePartial` | compiler/src/compiler_core.rs:233-357 | Succeeds iff nothing clashes and then adds exactly the chunk; on failure the repository is what some iteration order leaves: everything merged up to the first clash. |
| `Ingest.Compiler.AddParsedChunk` | compiler/src/compiler_core.rs:171-231 | Recorded iff the source, the ids and the content are new; refused for an entity iff the source is new and the chunk is not mergeable; success keeps the exact invariant, failure the weaker one, and a duplicate-content refusal means an entity-free chunk. |
| `Ingest.RecordKeeps` | compiler/src/compiler_core.rs:171-231 | Recording keeps: the repository is the disjoint union of the chunks, facet and binding ids are apart, sources and hashes unique. |
| `Ingest.FailedMergeKeepsWeak` | compiler/src/compiler_core.rs:233-357 | Whatever a failed merge leaves, the repository still contains every recorded chunk. |
| `Ingest.LeftIs` | compiler/src/compiler_core.rs:233-357 | What a failed merge leaves is the old repository, the chunk's entities of the namespaces before the first that does not fit, and some of that namespace that clash with nothing. |
| `Ingest.LeftByOrder` | compiler/src/compiler_core.rs:233-357 | Every such outcome is left by some iteration order. |
| `Ingest.FailsIff` | compiler/src/compiler_core.rs:233-357 | A merge can fail iff the chunk is not mergeable. |
| `Ingest.AtomicIff` | compiler/src/compiler_core.rs:233-357 | A failed merge leaves the repository unchanged under every iteration order iff the chunk has nothing in the namespaces before the first clashing one and every id it has there clashes. |
| `Ingest.StrayDefinition` | compiler/src/compiler_core.rs:233-357 | A chunk with a new definition and a component that is taken leaves the definition behind, under every order. |
| `Ingest.StrayIsUnrecorded` | compiler/src/compiler_core.rs:171-231 | The repository then is more than its recorded chunks, and the definition is refused as a duplicate although no recorded chunk has it. |
| `Ingest.OnlyEmptyRepeats` | compiler/src/compiler_core.rs:171-231 | A mergeable chunk with a recorded hash has no entities. |
| `Ingest.UniqueExportsCannotFire` | compiler/src/link_verify.rs:1482-1536 | On every reachable state the unique-export rule passes. |
| `Index.BuildIndex` | compiler/src/ingest_merge.rs:61-124 | One reference per input, ascending by address; an entry for every exported id but constraints, naming the last input to export it; and the hash over version 4, addresses and entries. |
| `Index.VerifyIndexIntegrity` | compiler/src/ir.rs:533-893 | Loads the chunks iff hashes are distinct, each file matches its reference and its recomputed address, and every index map is exactly the ids its chunks declare. |
| `Index.ChecksAreExact` | compiler/src/ir.rs:533-893 | The passes the code makes over index and chunks together are that characterisation. |
| `Index.BuildThenVerify` | compiler/src/ingest_merge.rs:61-124 | An index built from emitted chunks verifies iff no indexed id is exported by two chunks. |
| `Index.ModelIdentity` | compiler/src/ir.rs:351-400 | The config hash does not depend on input order or source ids, and recomputing it reproduces it. |
| `Index.IdentityIsContent` | compiler/src/ir.rs:351-400 | Under a hash without collisions two models share an identity iff they list the same addresses and the same entries. |
| `Index.IngestedPackageVerifies` | compiler/src/ir.rs:937-956 | Whatever was ingested, the emitted chunks have the addresses ingest gave them and the package verifies. |
| `Diff.DiffResolvedOutput` | cfx/src/diff.rs:273-311 | The lines are exactly the differences read off the payloads, ascending by display path, no neighbours equal; empty iff the two outputs have the same view. |
| `Diff.DiffHolds` | cfx/src/diff.rs:137-165 | A line is in the report iff it is one of these: a root scalar, a field of a component, parameter or slot, or an entry value that differs, with the base value before and the head value after; or a component, parameter or slot only one side has, with its value. |
| `Diff.DedupCollapses` | cfx/src/diff.rs:309-311 | Of each run of equal lines one is left, in place. |
| `Diff.EmptyIffViewsAgree` | cfx/src/diff.rs:273-447 | No change iff both sides agree on every root scalar (absent is null), merged component, parameter, slot and field. |
| `Diff.DiffSwaps` | cfx/src/diff.rs:273-447 | Swapping the sides swaps before and after, added and removed, and changes nothing else, order included. |
| `Diff.DiffIsSorted` | cfx/src/diff.rs:273-311 | The list is sorted by its display path. |
| `Diff.ValueComesFirst` | cfx/src/diff.rs:130-135 | A parameter's value line precedes its metadata lines. |
| `Diff.MergeComponents` | cfx/src/diff.rs:406-417 | Of each component the copy under the last root that has one; nothing else. |
| `Diff.DiffComponent` | cfx/src/diff.rs:315-352 | Exactly the differing fields other than the containers, under the component, and the lines of its parameters and slots under `.param.` and `.requires.`. |
| `Diff.DiffRequirement` | cfx/src/diff.rs:358-377 | Exactly the differing fields of the slot other than `fields`, and each differing entry value at the slot's path. |
| `Diff.ShapelessComponentIsInvisible` | cfx/src/diff.rs:315-352 | Two components that are not objects are never reported as different. |
| `DiffComplete.EmptyAndInPlaceIffEqual` | cfx/src/diff.rs:273-447 | On payloads of the documented shape (objects at every level, no nulls, no empty containers, equal copies across roots): nothing is reported and every root holds the same component ids iff the payloads are equal. |
| `DiffComplete.EarlierCopyIsInvisible` | cfx/src/diff.rs:406-417 | The copy an earlier root holds of a component is never compared. |
| `DiffComplete.MovedComponentIsInvisible` | cfx/src/diff.rs:406-417 | Two roots may exchange their components unreported, even on payloads of that shape. |
| `ShellHint.ExplainHint` | cfx/src/main.rs:487-500 | The printed hint, split by the shell, gives exactly the intended words. |
| `ShellHint.QuotedReads` | cfx/src/main.rs:456-458 | A quoted term is one word equal to the term, for every string, quotes included. |
| `ShellHint.HintReadsBack` | cfx/src/main.rs:487-500 | The words are `cfx explain --model`, the path, the optional file flag and each select pair, unmodified. |

## Left out

- Node ids, variable counts and file fields are unbounded; 32-bit overflow is not modelled, and the
  byte-level uniqueness lemmas assume that tables fit (`TableFits`).
- SHA-256, hex and JSON encoding: a digest is an arbitrary function of the entities, assumed
  injective only where a lemma says so.
- The parser's byte cursor is the remaining text; strings are sequences of code points and error
  positions are dropped.
- Variable order heuristics: any enumeration of the symbols will do (`IsOrder`), so only agreement is
  proved about the order, not its quality. Partitioned builds, the CUDD backend, the symbol file and
  manifests are not modelled.
- Memory sampling, progress and timings: a sample is an arbitrary value handed to `ClearMemos`.
- Iteration over hash maps that are not sorted is an arbitrary order; tree maps ascend.
- `summarize` and its collectors, `ObjectHeader::from_summaries`, catalogue field typing, parameter
  values, float finiteness and facet bindings of parameters: easy members.
- Diagnostic wording, hints and codes beyond which rule fired and on what.
- File reading and writing, package directories, command-line parsing and rendering.
- The older direct evaluator in `conditions/eval.rs`; resolve is modelled by the expression evaluator
  that constraints go through.
- Resolve beyond evaluating constraints: parameter overrides, inheritance of values, provenance.
- Selection provenance, cell status, counters and exit codes of the diff; JSON arrays and scalars are
  atoms of equality.
- Shell syntax beyond words, single quotes and backslash: the printed hint uses no more.
- Agreement.LegalSelectionsAgree: asks that comparisons be safe; `AgreementExactIff` shows that no
  class of constraints can do with less.
- PackageModel.PackageRootMeans: asks that facet and binding ids be apart, which
  `ExportedNamesApart` gives for summaries that export what they declare.
- Dependencies.InclusionIsClosed: asks for a forest of comparisons; `ClosedIffForest` shows no more
  can be had.
