# Solidity contract analyzer: rule-evaluation core in Dafny

This project models the rule-evaluation engine of a small static analyzer for
Solidity contracts, built on the `solar` parser. The analyzer reads an
already-parsed source unit. It visits every contract in it and reports three
syntactic patterns:

- **Unused state variables.** A name declared by a contract-level variable
  declaration counts as used only when it appears as a bare expression
  statement (`x;`) at the top level of some function body.
- **Division before multiplication.** An expression statement whose expression
  is a division whose right operand is a multiplication, `a / (b * c)`. The
  match is one level deep.
- **Unprotected selfdestruct.** The statements of a function body are scanned
  in order with one flag, `protection_found`. A call `require(...)` sets the
  flag and nothing resets it. A call `selfdestruct(...)` or `suicide(...)` made
  while the flag is unset stops the scan and flags the function. The finding
  names the function, or `unknown` when the function has no name.

Detectors are chosen by contract name. `Counter` gets the first two detectors,
`SelfDestruct` gets the third, and every other contract gets none.

The model is functional. The tree is a set of immutable datatypes (`Ast`).
Each detector is a pure function that returns its findings as values. A
contract's analysis is a `Report`: the warnings in the order the analyzer
prints them, plus the unused-variable findings as a set, because the source
takes them from a hash-set difference whose order is unspecified.

Modules:

- `Ast` (`ast.dfy`): expressions, statements, contract items, contracts, source
  units and findings, and `Collect`, the item-by-item loop that every pass runs
  (each item contributes a run of outputs, appended in item order).
- `Symbols` (`symbols.dfy`): the declared set, the used set and the
  unused-variable detector.
- `Arithmetic` (`arithmetic.dfy`): the division-before-multiplication match.
- `SelfDestruct` (`selfdestruct.dfy`): the guard-flag state machine and the
  per-function loop.
- `Analyzer` (`analyzer.dfy`): the name-based dispatch over a source unit, and
  the two end-to-end scenarios.

Each detector is tied to an independent definition written over positions in
the tree:

- `IsDeclared`: some item `i` is `VarDecl(Some(n))`.
- `IsBareUse`: some statement `j` of some function body `i` is `Ident(n);`.
- `IsDivOfMul`: there exist `a`, `b`, `c` such that the expression is `a / (b * c)`.
- `HasUnprotectedDestruct`: some index `i` holds a destructive call, and no
  index `j < i` holds a `require` call.

The contracts and lemmas prove that each detector agrees with its definition
in both directions.

Two behaviours of the code are easy to misread:

- **Guard before two destructive calls.** The body
  `require(x); suicide(y); selfdestruct(z);` is not flagged, because `require`
  sets the flag before either destructive call is reached
  (`SelfDestruct.GuardThenTwoDestructs`).
- **Operator position.** Only a division whose right operand is a
  multiplication is flagged, `a / (b * c)`. `(a * b) / c` is not flagged, and
  neither is `a / b * c`, which groups as `(a / b) * c`
  (`Arithmetic.LeftGroupedDivisionNotFlagged`).

Every detector is a function of the tree alone, so analysing the same tree
twice yields the same reports.

Identifiers are compared by name. The declared and used sets are `HashSet`s of
`solar` identifiers, and the model assumes their equality and hashing look only
at the symbol name.

Parentheses leave no node in the tree. The model assumes that `solar` parses
`a / (b * c)` to a division node whose right operand is the multiplication node
itself, `Binary(a, Div, Binary(b, Mul, c))`, with no tuple or parenthesis node
between them. The one-level match of `contains_div_before_mul` only finds the
pattern under that assumption.

## Model

| member | source | states |
|---|---|---|
| `Symbols.DeclaredVariables` | src/main.rs:55-61 | a name is in the declared set iff some contract item is a variable declaration carrying that name; unnamed declarations and function items add nothing |
| `Symbols.UsedByStmt` | src/main.rs:82-88 | a statement adds a name to the used set iff it is an expression statement that is exactly that bare identifier, so it adds at most one name |
| `Symbols.UsedInBody` | src/main.rs:65-67 | a body adds a name iff one of its top-level statements is that bare identifier |
| `Symbols.UsedVariables` | src/main.rs:63-72 | a name is in the used set iff some statement of some function body is that bare identifier; functions without a body contribute nothing |
| `Symbols.UnusedVariables` | src/main.rs:74-79 | a name is reported iff it is declared and never used as a bare statement |
| `Symbols.UnusedFindings` | src/main.rs:74-79 | the findings are exactly the unused-variable records naming the contract and a reported name, one per reported name |
| `Symbols.TaggedCardinality` | src/main.rs:74-79 | tagging each leftover name with the contract loses no name: as many findings as names |
| `Symbols.UsedNeverReported` | src/main.rs:63-79 | a name that stands alone as a statement in any function body is never reported |
| `Symbols.NestedIdentifierNotUsed` | src/main.rs:82-88 | identifiers that are operands of a larger expression (`a + b;`) are not marked used |
| `Symbols.DuplicateDeclarationReportedOnce` | src/main.rs:52-61 | a name declared twice and never used yields exactly one finding |
| `Symbols.UnnamedDeclarationIgnored` | src/main.rs:56-60 | an unnamed variable declaration leaves the declared set unchanged |
| `Arithmetic.CheckForMultiplication` | src/main.rs:108-110 | true iff the expression is a multiplication node, whatever its operands |
| `Arithmetic.ContainsDivBeforeMul` | src/main.rs:99-106 | true iff the expression is `a / (b * c)` for some `a`, `b`, `c` |
| `Arithmetic.CheckUnsafeArithmetic` | src/main.rs:91-97 | a statement yields at most one warning; it yields one iff it is an expression statement of shape `a / (b * c)`, so non-expression statements never warn |
| `Arithmetic.ArithmeticInBody` | src/main.rs:66-68 | a body yields only division warnings, exactly as many as it has flagged statements |
| `Arithmetic.BodyWarningsEmpty` | src/main.rs:66-68 | a body yields no warning iff none of its statements is flagged |
| `Arithmetic.ArithmeticWarnings` | src/main.rs:63-72 | a contract yields only division warnings, and none iff no statement of any function body is flagged |
| `Arithmetic.ArithmeticWarningsAppend` | src/main.rs:63-72 | the warnings of two consecutive runs of items are those of the first run followed by those of the second, so bodies are reported in item order |
| `Arithmetic.ArithmeticWarningsSingle` | src/main.rs:64-70 | a single item yields exactly its own body's warnings: one per flagged statement for a function with a body, none otherwise |
| `Arithmetic.DivOfProductFlagged` | src/main.rs:99-110 | `a / (b * c)` is flagged |
| `Arithmetic.ProductOverDivisorNotFlagged` | src/main.rs:99-110 | `(a * b) / c` is not flagged |
| `Arithmetic.PlainDivisionNotFlagged` | src/main.rs:99-110 | `a / b` is not flagged |
| `Arithmetic.LeftGroupedDivisionNotFlagged` | src/main.rs:99-110 | `(a / b) * c`, the grouping of `a / b * c`, is not flagged |
| `Arithmetic.NestedShapeNotFlagged` | src/main.rs:99-106 | the match does not recurse: the shape nested under another operator or inside a call is not flagged |
| `SelfDestruct.Step` | src/main.rs:136-161 | one loop iteration stops iff the flag is unset and the statement calls `selfdestruct` or `suicide`; otherwise the new flag is the old flag or-ed with "the statement calls `require`"; a set flag stays set |
| `SelfDestruct.ContainsUnprotectedSelfdestruct` | src/main.rs:132-164 | true iff some index holds a destructive call and no earlier index holds a `require` call |
| `SelfDestruct.ScanFromCharacterization` | src/main.rs:132-164 | the scan loop from any flag value reports iff the flag is unset and the body holds an unprotected destructive call |
| `SelfDestruct.ProtectionIsPermanent` | src/main.rs:144-156 | once `protection_found` is set, the rest of the scan never reports |
| `SelfDestruct.AppendAfterUnprotected` | src/main.rs:144-147 | the scan returns at the first unprotected call, so statements appended afterwards do not change a positive answer |
| `SelfDestruct.NoDestructiveCallNoFinding` | src/main.rs:135-163 | a body with no destructive call is never flagged |
| `SelfDestruct.GuardFirstProtects` | src/main.rs:152-156 | a body that starts with a `require` call is never flagged |
| `SelfDestruct.GuardThenDestruct` | src/main.rs:132-164 | `require(x); selfdestruct(y);` is not flagged |
| `SelfDestruct.DestructThenGuard` | src/main.rs:132-164 | `selfdestruct(y); require(x);` is flagged: a later guard does not protect an earlier call |
| `SelfDestruct.LoneDestruct` | src/main.rs:132-164 | `selfdestruct(y);` alone is flagged |
| `SelfDestruct.GuardThenTwoDestructs` | src/main.rs:132-164 | `require(x); suicide(y); selfdestruct(z);` is not flagged |
| `SelfDestruct.FunctionLabel` | src/main.rs:119-125 | a finding names the function by its own name, or `unknown` when it has none |
| `SelfDestruct.FunctionWarningsSpec` | src/main.rs:114-127 | an item yields at most one finding; it yields one, naming the function or `unknown`, iff it is a function with a body holding an unprotected destructive call |
| `SelfDestruct.AnalyzeSelfdestructContract` | src/main.rs:113-131 | the findings are selfdestruct findings only, exactly as many as there are flagged functions, and a function label appears iff some function with a body of that label holds an unprotected destructive call |
| `SelfDestruct.SelfdestructWarningsAppend` | src/main.rs:113-131 | the findings of two consecutive runs of items are those of the first run followed by those of the second, so findings follow function order |
| `SelfDestruct.SelfdestructWarningsSingle` | src/main.rs:114-127 | a single item yields exactly its own finding, if any |
| `SelfDestruct.UnnamedFunctionsReportedSeparately` | src/main.rs:117-126 | two flagged unnamed functions give two `unknown` findings: findings are per function, not per label |
| `SelfDestruct.GuardDoesNotCrossFunctions` | src/main.rs:114-117 | the flag is fresh for every function: a `require` in one function does not protect another |
| `Analyzer.AnalyzeContract` | src/main.rs:38-44 | the report names the contract; other names yield nothing; for `Counter` the warnings are exactly the arithmetic detector's and the unused set exactly the unused-variable detector's (only division warnings, none iff no statement is flagged, one finding per unused name); for `SelfDestruct` the warnings are exactly the selfdestruct detector's, with no unused names, and a label appears iff some function of that label holds an unprotected destructive call |
| `Analyzer.Contracts` | src/main.rs:34-35 | exactly the contracts among the top-level items, none invented, never more than there are items |
| `Analyzer.ContractsAppend` | src/main.rs:34-35 | the contracts of two consecutive runs of items are those of the first run followed by those of the second |
| `Analyzer.ContractsSingle` | src/main.rs:34-35 | a contract item yields its contract once; any other item yields none |
| `Analyzer.AnalyzeSourceUnit` | src/main.rs:33-48 | one report per contract, in source order, each the dispatch of that contract; every report comes from a contract of the unit |
| `Analyzer.AnalyzeSourceUnitAppend` | src/main.rs:34-46 | the reports of two consecutive runs of items are those of the first run followed by those of the second: contracts are reported in source order, each as often as it occurs |
| `Analyzer.TwoContractsInOrder` | src/main.rs:34-46 | two contracts yield two reports, the first contract's first |
| `Analyzer.UnselectedContractsYieldNothing` | src/main.rs:34-46 | a source unit without a `Counter` or `SelfDestruct` contract produces only empty reports |
| `Analyzer.DetectorsDoNotMix` | src/main.rs:38-44 | a `Counter` contract never yields a selfdestruct finding; a `SelfDestruct` contract yields neither unused-variable nor arithmetic findings |
| `Analyzer.CounterScenario` | src/main.rs:51-110 | an unreferenced `unusedVar` and a statement `total / (rate * base);` give exactly one unused-variable finding and one arithmetic warning |
| `Analyzer.SelfDestructScenario` | src/main.rs:113-164 | a function `kill` with body `selfdestruct(owner);` gives exactly one finding, naming `kill` |

## Left out

- `main` (src/main.rs:9-30) is not modelled. It covers the fixed file list, session construction, parsing through `solar` and the `unwrap` on the parse result. This is I/O and calls into the external parser; the model starts from a parsed `SourceUnit`.
- The `println!` message text and the "Analyzing file" / "Analyzing contract" progress lines are not modelled. Findings are returned as `Finding` values instead.
- The second message that `contains_unprotected_selfdestruct` prints itself (src/main.rs:145) is folded into the one `UnprotectedSelfdestruct` finding per function.
- The `Result` / `EmittedDiagnostics` plumbing is not modelled. `analyze_contract` always returns `Ok`, so it carries no information.
- The internals of `solar`'s `Ident`, `BinOpKind` and arena allocation are not modelled. Identifiers are names. Operators are `Div`, `Mul` and one `OtherOp` for all the rest. Node kinds the detectors never inspect are collapsed into `OtherExpr`, `OtherStmt`, `OtherItem` and `OtherSourceItem`.
- The printing order of unused-variable warnings is not modelled: it is the iteration order of a `HashSet` and is unspecified, so `Report.unused` is a set.
