/** The per-file entry point (`analyze_contract`): every contract of a source
    unit is visited in order and the detectors are chosen by the contract's name.
    A contract named `Counter` gets the arithmetic-order and unused-variable
    detectors, one named `SelfDestruct` gets the guarded-selfdestruct detector,
    and every other contract gets none. */
module Analyzer {
  import opened Ast
  import Symbols
  import Arithmetic
  import SelfDestruct

  /** What the analysis of one contract emits: the warnings printed in order, and
      the unused-variable findings, whose order is unspecified. */
  datatype Report = Report(contract: string, warnings: seq<Finding>, unused: set<Finding>)

  /** The analysis of one contract. For `Counter`, the arithmetic warnings of
      every statement come first and the unused variables after them. */
  function AnalyzeContract(contract: Contract): (r: Report)
    ensures r.contract == contract.name
    ensures contract.name != "Counter" && contract.name != "SelfDestruct" ==> r.warnings == [] && r.unused == {}
    ensures contract.name == "Counter" ==>
      && (forall k :: 0 <= k < |r.warnings| ==> r.warnings[k] == DivisionBeforeMultiplication)
      && r.warnings == Arithmetic.ArithmeticWarnings(contract.items)
      && r.unused == Symbols.UnusedFindings(contract)
      && (r.warnings == [] <==> Arithmetic.NoFlaggedStmt(contract.items))
      && (forall f :: f in r.unused <==>
            f.UnusedVariable? && f.contract == "Counter" && f.variable in Symbols.UnusedVariables(contract.items))
    ensures contract.name == "SelfDestruct" ==>
      && r.warnings == SelfDestruct.AnalyzeSelfdestructContract(contract.items)
      && r.unused == {}
      && (forall k :: 0 <= k < |r.warnings| ==> r.warnings[k].UnprotectedSelfdestruct?)
      && (forall name :: UnprotectedSelfdestruct(name) in r.warnings <==>
            exists i :: SelfDestruct.FlagsFunction(contract.items, i) && SelfDestruct.FunctionLabel(contract.items[i].fnName) == name)
  {
    var counter := if contract.name == "Counter" then
        Report(contract.name, Arithmetic.ArithmeticWarnings(contract.items), Symbols.UnusedFindings(contract))
      else Report(contract.name, [], {});
    if contract.name == "SelfDestruct" then
      Report(contract.name, counter.warnings + SelfDestruct.AnalyzeSelfdestructContract(contract.items), counter.unused)
    else counter
  }

  /** The contract a top-level item contributes, if it is one. */
  function ContractOf(item: SourceItem): seq<Contract>
  {
    match item
    case ContractDef(c) => [c]
    case OtherSourceItem => []
  }

  /** The contracts of a source unit, in order; other top-level items are skipped. */
  function Contracts(unit: SourceUnit): (contracts: seq<Contract>)
    ensures |contracts| <= |unit|
    ensures forall c :: c in contracts <==> ContractDef(c) in unit
  {
    ContractsSpec(unit);
    Collect(unit, ContractOf)
  }

  /** The loop keeps no more entries than items, and exactly the contracts
      among them. */
  lemma {:induction false} ContractsSpec(unit: SourceUnit)
    ensures |Collect(unit, ContractOf)| <= |unit|
    ensures forall c :: c in Collect(unit, ContractOf) <==> ContractDef(c) in unit
    decreases |unit|
  {
    if |unit| > 0 {
      var last := |unit| - 1;
      var prefix := unit[..last];
      ContractsSpec(prefix);
      assert unit == prefix + [unit[last]];
    }
  }

  /** The contracts of two consecutive runs of items are those of the first run
      followed by those of the second. With `ContractsSingle` this fixes the
      result: every contract item once, in source order. */
  lemma ContractsAppend(front: SourceUnit, back: SourceUnit)
    ensures Contracts(front + back) == Contracts(front) + Contracts(back)
  {
    CollectAppend(front, back, ContractOf);
  }

  /** A contract item yields its contract; any other item yields none. */
  lemma ContractsSingle(c: Contract)
    ensures Contracts([ContractDef(c)]) == [c]
    ensures Contracts([OtherSourceItem]) == []
  {
    CollectSingle(ContractDef(c), ContractOf);
    CollectSingle(OtherSourceItem, ContractOf);
  }

  /** The report a top-level item contributes: the dispatch of its contract,
      or nothing when it is not a contract. */
  function ReportOf(item: SourceItem): seq<Report>
  {
    match item
    case ContractDef(c) => [AnalyzeContract(c)]
    case OtherSourceItem => []
  }

  /** The analysis of a source unit: one report per contract, in order. */
  function AnalyzeSourceUnit(unit: SourceUnit): (reports: seq<Report>)
    ensures |reports| == |Contracts(unit)|
    ensures forall k :: 0 <= k < |reports| ==> reports[k] == AnalyzeContract(Contracts(unit)[k])
    ensures forall r :: r in reports ==> exists c :: ContractDef(c) in unit && r == AnalyzeContract(c)
  {
    var reports := Collect(unit, ReportOf);
    var contracts := Contracts(unit);
    AnalyzeSourceUnitSpec(unit);
    assert forall r :: r in reports ==> exists c :: ContractDef(c) in unit && r == AnalyzeContract(c) by {
      forall r | r in reports
        ensures exists c :: ContractDef(c) in unit && r == AnalyzeContract(c)
      {
        var k :| 0 <= k < |reports| && reports[k] == r;
        assert contracts[k] in contracts;
      }
    }
    reports
  }

  /** The loop over the items yields, position by position, the dispatch of the
      contracts among them. */
  lemma {:induction false} AnalyzeSourceUnitSpec(unit: SourceUnit)
    ensures |Collect(unit, ReportOf)| == |Collect(unit, ContractOf)|
    ensures forall k :: 0 <= k < |Collect(unit, ReportOf)| ==>
      Collect(unit, ReportOf)[k] == AnalyzeContract(Collect(unit, ContractOf)[k])
    decreases |unit|
  {
    if |unit| > 0 {
      var prefix := unit[..|unit| - 1];
      var item := unit[|unit| - 1];
      AnalyzeSourceUnitSpec(prefix);
      var reports := Collect(prefix, ReportOf);
      var contracts := Collect(prefix, ContractOf);
      assert Collect(unit, ReportOf) == reports + ReportOf(item);
      assert Collect(unit, ContractOf) == contracts + ContractOf(item);
      forall k | 0 <= k < |reports + ReportOf(item)|
        ensures (reports + ReportOf(item))[k] == AnalyzeContract((contracts + ContractOf(item))[k])
      {
        if k < |reports| {
          assert (reports + ReportOf(item))[k] == reports[k];
          assert (contracts + ContractOf(item))[k] == contracts[k];
        }
      }
    }
  }

  /** The reports of two consecutive runs of items are those of the first run
      followed by those of the second: contracts are reported in source order,
      each as often as it occurs. */
  lemma AnalyzeSourceUnitAppend(front: SourceUnit, back: SourceUnit)
    ensures AnalyzeSourceUnit(front + back) == AnalyzeSourceUnit(front) + AnalyzeSourceUnit(back)
  {
    CollectAppend(front, back, ReportOf);
  }

  /** Two contracts yield two reports, in source order. */
  lemma TwoContractsInOrder(a: Contract, b: Contract)
    ensures AnalyzeSourceUnit([ContractDef(a), ContractDef(b)]) == [AnalyzeContract(a), AnalyzeContract(b)]
  {
    var first := [ContractDef(a)];
    var second := [ContractDef(b)];
    assert [ContractDef(a), ContractDef(b)] == first + second;
    AnalyzeSourceUnitAppend(first, second);
    assert AnalyzeSourceUnit(first) == [AnalyzeContract(a)] by {
      CollectSingle(ContractDef(a), ReportOf);
    }
    assert AnalyzeSourceUnit(second) == [AnalyzeContract(b)] by {
      CollectSingle(ContractDef(b), ReportOf);
    }
  }

  /** A report with nothing in it. */
  predicate IsEmpty(r: Report)
  {
    r.warnings == [] && r.unused == {}
  }

  /** A source unit with no contract named `Counter` or `SelfDestruct` yields no
      finding at all. */
  lemma UnselectedContractsYieldNothing(unit: SourceUnit)
    requires forall c :: ContractDef(c) in unit ==> c.name != "Counter" && c.name != "SelfDestruct"
    ensures forall k :: 0 <= k < |AnalyzeSourceUnit(unit)| ==> IsEmpty(AnalyzeSourceUnit(unit)[k])
  {
    var contracts := Contracts(unit);
    forall k | 0 <= k < |contracts|
      ensures IsEmpty(AnalyzeContract(contracts[k]))
    {
      assert contracts[k] in contracts;
    }
  }

  /** A `Counter` contract never yields a selfdestruct finding, and a
      `SelfDestruct` contract never yields an unused-variable or arithmetic one. */
  lemma DetectorsDoNotMix(contract: Contract)
    ensures contract.name == "Counter" ==>
      forall k :: 0 <= k < |AnalyzeContract(contract).warnings| ==> !AnalyzeContract(contract).warnings[k].UnprotectedSelfdestruct?
    ensures contract.name == "SelfDestruct" ==>
      && AnalyzeContract(contract).unused == {}
      && DivisionBeforeMultiplication !in AnalyzeContract(contract).warnings
  {
  }

  /** The body of the `Counter` scenario: `total / (rate * base);`. */
  function ScenarioBody(): seq<Stmt>
  {
    [ExprStmt(Binary(Ident("total"), Div, Binary(Ident("rate"), Mul, Ident("base"))))]
  }

  /** The items of the `Counter` scenario: `unusedVar` and one function. */
  function ScenarioItems(): seq<ContractItem>
  {
    [VarDecl(Some("unusedVar")), FuncDef(Some("compute"), Some(ScenarioBody()))]
  }

  /** The `Counter` scenario: a variable `unusedVar` that is never referenced and
      a function whose only statement is `total / (rate * base);` produce exactly
      one unused-variable finding and exactly one arithmetic warning. */
  lemma CounterScenario()
    ensures AnalyzeContract(Contract("Counter", ScenarioItems()))
      == Report("Counter", [DivisionBeforeMultiplication], {UnusedVariable("Counter", "unusedVar")})
  {
    var items := ScenarioItems();
    ScenarioWarnings();
    assert Symbols.UnusedVariables(items) == {"unusedVar"} by {
      assert Symbols.DeclaresAt(items, 0, "unusedVar");
      assert !Symbols.IsBareUse(items, "unusedVar");
      assert forall n :: Symbols.IsDeclared(items, n) ==> n == "unusedVar";
    }
  }

  /** The arithmetic half of the `Counter` scenario. */
  lemma ScenarioWarnings()
    ensures Arithmetic.ArithmeticWarnings(ScenarioItems()) == [DivisionBeforeMultiplication]
  {
    var items := ScenarioItems();
    var body := ScenarioBody();
    assert Arithmetic.ContainsDivBeforeMul(body[0].expr);
    assert body[..0] == [];
    assert Arithmetic.ArithmeticInBody(body) == [DivisionBeforeMultiplication];
    assert items == [items[0]] + [items[1]];
    Arithmetic.ArithmeticWarningsAppend([items[0]], [items[1]]);
    Arithmetic.ArithmeticWarningsSingle(items[0]);
    Arithmetic.ArithmeticWarningsSingle(items[1]);
  }

  /** The `SelfDestruct` scenario: a function `kill` whose body is
      `selfdestruct(owner);` produces exactly one finding, naming `kill`. */
  lemma SelfDestructScenario()
    ensures AnalyzeContract(Contract("SelfDestruct", [FuncDef(Some("kill"), Some([SelfDestruct.Destruct("selfdestruct", "owner")]))]))
      == Report("SelfDestruct", [UnprotectedSelfdestruct("kill")], {})
  {
    var items := [FuncDef(Some("kill"), Some([SelfDestruct.Destruct("selfdestruct", "owner")]))];
    SelfDestruct.LoneDestruct("owner");
    assert items[..0] == [];
  }
}
