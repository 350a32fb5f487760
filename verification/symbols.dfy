/** The symbol collector and the unused-variable detector of the Counter analysis
    (`analyze_counter_contract` and `collect_used_variables`).

    The declared set holds the names of the named contract-level variable
    declarations; the used set holds only the identifiers that stand alone as an
    expression statement at the top level of a function body. The detector
    reports the declared names that are not in the used set. */
module Symbols {
  import opened Ast

  /** Item `i` of the contract body declares a variable named `n`. */
  predicate DeclaresAt(items: seq<ContractItem>, i: int, n: string)
  {
    0 <= i < |items| && items[i] == VarDecl(Some(n))
  }

  /** Some item of the contract body declares a variable named `n`. */
  ghost predicate IsDeclared(items: seq<ContractItem>, n: string)
  {
    exists i :: DeclaresAt(items, i, n)
  }

  /** Some top-level statement of some function body is the bare identifier `n`. */
  ghost predicate IsBareUse(items: seq<ContractItem>, n: string)
  {
    exists i, j :: HasStmtAt(items, i, j) && items[i].body.value[j] == ExprStmt(Ident(n))
  }

  /** The names a single contract item adds to the declared set. */
  function DeclaredBy(item: ContractItem): set<string>
  {
    match item
    case VarDecl(Some(n)) => {n}
    case _ => {}
  }

  /** The declared set, built by visiting the items in order. Unnamed
      declarations and non-variable items add nothing; a name declared twice
      appears once. */
  function DeclaredVariables(items: seq<ContractItem>): (declared: set<string>)
    ensures forall n :: n in declared <==> IsDeclared(items, n)
    decreases |items|
  {
    if |items| == 0 then {}
    else
      var prefix := items[..|items| - 1];
      var declared := DeclaredVariables(prefix) + DeclaredBy(items[|items| - 1]);
      assert forall n :: IsDeclared(items, n) ==> IsDeclared(prefix, n) || n in DeclaredBy(items[|items| - 1]) by {
        forall n | IsDeclared(items, n)
          ensures IsDeclared(prefix, n) || n in DeclaredBy(items[|items| - 1])
        {
          var i :| DeclaresAt(items, i, n);
          if i < |items| - 1 {
            assert DeclaresAt(prefix, i, n);
          }
        }
      }
      assert forall n :: IsDeclared(prefix, n) ==> IsDeclared(items, n) by {
        forall n | IsDeclared(prefix, n)
          ensures IsDeclared(items, n)
        {
          var i :| DeclaresAt(prefix, i, n);
          assert DeclaresAt(items, i, n);
        }
      }
      assert forall n :: n in DeclaredBy(items[|items| - 1]) ==> IsDeclared(items, n) by {
        forall n | n in DeclaredBy(items[|items| - 1])
          ensures IsDeclared(items, n)
        {
          assert DeclaresAt(items, |items| - 1, n);
        }
      }
      declared
  }

  /** The names one statement adds to the used set: only a statement that is a
      bare identifier counts. */
  function UsedByStmt(stmt: Stmt): (used: set<string>)
    ensures forall n :: n in used <==> stmt == ExprStmt(Ident(n))
    ensures |used| <= 1
  {
    match stmt
    case ExprStmt(Ident(n)) => {n}
    case _ => {}
  }

  /** The names a function body adds to the used set, statement by statement. */
  function UsedInBody(stmts: seq<Stmt>): (used: set<string>)
    ensures forall n :: n in used <==> exists j :: 0 <= j < |stmts| && stmts[j] == ExprStmt(Ident(n))
    decreases |stmts|
  {
    if |stmts| == 0 then {}
    else
      var prefix := stmts[..|stmts| - 1];
      assert forall j :: 0 <= j < |prefix| ==> prefix[j] == stmts[j];
      UsedInBody(prefix) + UsedByStmt(stmts[|stmts| - 1])
  }

  /** The names a contract item adds to the used set: a function without a body
      and every non-function item add nothing. */
  function UsedBy(item: ContractItem): set<string>
  {
    match item
    case FuncDef(_, Some(stmts)) => UsedInBody(stmts)
    case _ => {}
  }

  /** The used set, built by visiting every function body in order. */
  function UsedVariables(items: seq<ContractItem>): (used: set<string>)
    ensures forall n :: n in used <==> IsBareUse(items, n)
    decreases |items|
  {
    if |items| == 0 then {}
    else
      var prefix := items[..|items| - 1];
      var used := UsedVariables(prefix) + UsedBy(items[|items| - 1]);
      assert forall n :: n in used <==> IsBareUse(items, n) by {
        forall n
          ensures n in used <==> IsBareUse(items, n)
        {
          BareUseSnoc(items, n);
        }
      }
      used
  }

  /** A bare use in a non-empty contract body is one in all items but the last,
      or one in the last item's function body. */
  lemma BareUseSnoc(items: seq<ContractItem>, n: string)
    requires |items| > 0
    ensures IsBareUse(items, n) <==> IsBareUse(items[..|items| - 1], n) || n in UsedBy(items[|items| - 1])
  {
    var last := |items| - 1;
    var prefix := items[..last];
    if IsBareUse(prefix, n) {
      var i, j :| HasStmtAt(prefix, i, j) && prefix[i].body.value[j] == ExprStmt(Ident(n));
      assert HasStmtAt(items, i, j);
    }
    if n in UsedBy(items[last]) {
      var j :| 0 <= j < |items[last].body.value| && items[last].body.value[j] == ExprStmt(Ident(n));
      assert HasStmtAt(items, last, j);
    }
    if IsBareUse(items, n) {
      var i, j :| HasStmtAt(items, i, j) && items[i].body.value[j] == ExprStmt(Ident(n));
      if i < last {
        assert HasStmtAt(prefix, i, j);
      }
    }
  }

  /** The names the unused-variable detector reports: declared minus used. */
  function UnusedVariables(items: seq<ContractItem>): (unused: set<string>)
    ensures forall n :: n in unused <==> IsDeclared(items, n) && !IsBareUse(items, n)
  {
    DeclaredVariables(items) - UsedVariables(items)
  }

  /** The findings the unused-variable detector emits for a contract: one per
      reported name, each naming the contract. */
  function UnusedFindings(contract: Contract): (findings: set<Finding>)
    ensures forall f :: f in findings <==>
      && f.UnusedVariable?
      && f.contract == contract.name
      && IsDeclared(contract.items, f.variable)
      && !IsBareUse(contract.items, f.variable)
    ensures |findings| == |UnusedVariables(contract.items)|
  {
    var unused := UnusedVariables(contract.items);
    TaggedCardinality(contract.name, unused);
    set n | n in unused :: UnusedVariable(contract.name, n)
  }

  /** Tagging names with one contract name loses none of them: distinct names
      give distinct findings. */
  lemma {:induction false} TaggedCardinality(contract: string, names: set<string>)
    ensures |set n | n in names :: UnusedVariable(contract, n)| == |names|
    decreases names
  {
    if names != {} {
      var x :| x in names;
      var rest := names - {x};
      TaggedCardinality(contract, rest);
      assert (set n | n in names :: UnusedVariable(contract, n))
          == (set n | n in rest :: UnusedVariable(contract, n)) + {UnusedVariable(contract, x)};
    }
  }

  /** A name that appears as a bare statement in any function body is never
      reported, wherever it is declared. */
  lemma UsedNeverReported(contract: Contract, i: int, j: int, n: string)
    requires HasStmtAt(contract.items, i, j)
    requires contract.items[i].body.value[j] == ExprStmt(Ident(n))
    ensures UnusedVariable(contract.name, n) !in UnusedFindings(contract)
  {
  }

  /** An identifier used only inside a larger expression does not count as used:
      in `a + b;` neither `a` nor `b` is marked. */
  lemma NestedIdentifierNotUsed(a: string, b: string)
    ensures UsedInBody([ExprStmt(Binary(Ident(a), OtherOp, Ident(b)))]) == {}
  {
  }

  /** Declaring the same name twice still yields a single finding. */
  lemma DuplicateDeclarationReportedOnce(contract: string, n: string)
    ensures UnusedFindings(Contract(contract, [VarDecl(Some(n)), VarDecl(Some(n))]))
         == {UnusedVariable(contract, n)}
  {
    var items := [VarDecl(Some(n)), VarDecl(Some(n))];
    assert DeclaresAt(items, 0, n);
    assert !IsBareUse(items, n);
  }

  /** An unnamed declaration can never be reported: it adds nothing to the
      declared set. */
  lemma UnnamedDeclarationIgnored(items: seq<ContractItem>)
    ensures DeclaredVariables(items + [VarDecl(None)]) == DeclaredVariables(items)
  {
    var extended := items + [VarDecl(None)];
    assert extended[..|extended| - 1] == items;
  }
}
