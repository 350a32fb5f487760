/** The guarded-selfdestruct detector (`analyze_selfdestruct_contract` and
    `contains_unprotected_selfdestruct`).

    A function body is scanned statement by statement with a single flag,
    `protectionFound`, that starts unset. A call to the bare identifier `require`
    sets it for good; a call to `selfdestruct` or `suicide` while it is unset ends
    the scan with a positive answer. Only top-level expression statements whose
    expression is a call with an identifier callee are looked at. */
module SelfDestruct {
  import opened Ast

  /** The statement is a call of the bare identifier `name`, with any arguments. */
  predicate IsCallTo(stmt: Stmt, name: string)
  {
    stmt.ExprStmt? && stmt.expr.Call? && stmt.expr.callee == Ident(name)
  }

  /** A call that destroys the contract. */
  predicate IsDestructiveCall(stmt: Stmt)
  {
    IsCallTo(stmt, "selfdestruct") || IsCallTo(stmt, "suicide")
  }

  /** A call that counts as an access-control guard. */
  predicate IsGuardCall(stmt: Stmt)
  {
    IsCallTo(stmt, "require")
  }

  /** Some statement strictly before position `i` is a guard call. */
  ghost predicate GuardedBefore(stmts: seq<Stmt>, i: int)
  {
    exists j :: 0 <= j < i && j < |stmts| && IsGuardCall(stmts[j])
  }

  /** Some destructive call in the body has no guard call before it. */
  ghost predicate HasUnprotectedDestruct(stmts: seq<Stmt>)
  {
    exists i :: 0 <= i < |stmts| && IsDestructiveCall(stmts[i]) && !GuardedBefore(stmts, i)
  }

  /** The state of the scan after a statement: still scanning with the given
      flag, or stopped on an unprotected destructive call. */
  datatype ScanState = Scanning(protectionFound: bool) | Unprotected

  /** One iteration of the scan loop. The destructive-call test comes first and
      the guard test second, as two independent checks of the callee. */
  function Step(protectionFound: bool, stmt: Stmt): (next: ScanState)
    ensures next == Unprotected <==> !protectionFound && IsDestructiveCall(stmt)
    ensures next.Scanning? ==> next.protectionFound == (protectionFound || IsGuardCall(stmt))
    ensures protectionFound ==> next == Scanning(true)
  {
    match stmt
    case ExprStmt(Call(callee, _)) =>
      if callee.Ident? && (callee.name == "selfdestruct" || callee.name == "suicide") && !protectionFound then
        Unprotected
      else if callee.Ident? && callee.name == "require" then
        Scanning(true)
      else
        Scanning(protectionFound)
    case _ => Scanning(protectionFound)
  }

  /** The scan loop from a given flag value: true as soon as a step stops on an
      unprotected destructive call, false when the body is exhausted. */
  function ScanFrom(stmts: seq<Stmt>, protectionFound: bool): bool
    decreases |stmts|
  {
    if |stmts| == 0 then false
    else
      match Step(protectionFound, stmts[0])
      case Unprotected => true
      case Scanning(p) => ScanFrom(stmts[1..], p)
  }

  /** The detector on one body: the scan starting with the flag unset. It answers
      true exactly when some destructive call has no guard call before it. */
  function ContainsUnprotectedSelfdestruct(stmts: seq<Stmt>): (found: bool)
    ensures found <==> HasUnprotectedDestruct(stmts)
  {
    ScanFromCharacterization(stmts, false);
    ScanFrom(stmts, false)
  }

  /** The scan from any flag: with the flag set it never reports; with it unset
      it reports exactly the unprotected destructive calls. */
  lemma {:induction false} ScanFromCharacterization(stmts: seq<Stmt>, protectionFound: bool)
    ensures ScanFrom(stmts, protectionFound) <==> !protectionFound && HasUnprotectedDestruct(stmts)
    decreases |stmts|
  {
    if |stmts| == 0 {
      return;
    }
    var rest := stmts[1..];
    assert forall k :: 0 <= k < |rest| ==> rest[k] == stmts[k + 1];
    match Step(protectionFound, stmts[0])
    case Unprotected =>
      assert IsDestructiveCall(stmts[0]) && !GuardedBefore(stmts, 0);
    case Scanning(p) =>
      ScanFromCharacterization(rest, p);
      if protectionFound {
        return;
      }
      if IsGuardCall(stmts[0]) {
        // Every later destructive call is protected by the first statement.
        assert forall i :: 0 < i < |stmts| ==> GuardedBefore(stmts, i);
      } else {
        assert p == false;
        // The first statement is neither a guard nor a destructive call, so the
        // body reports exactly when its tail does.
        if HasUnprotectedDestruct(rest) {
          var i :| 0 <= i < |rest| && IsDestructiveCall(rest[i]) && !GuardedBefore(rest, i);
          GuardedBeforeShift(stmts, i);
          assert IsDestructiveCall(stmts[i + 1]);
        }
        if HasUnprotectedDestruct(stmts) {
          var i :| 0 <= i < |stmts| && IsDestructiveCall(stmts[i]) && !GuardedBefore(stmts, i);
          GuardedBeforeShift(stmts, i - 1);
          assert IsDestructiveCall(rest[i - 1]);
        }
      }
  }

  /** When the first statement is not a guard call, the guards before position
      `i + 1` of a body are those before position `i` of its tail. */
  lemma GuardedBeforeShift(stmts: seq<Stmt>, i: int)
    requires |stmts| > 0 && !IsGuardCall(stmts[0]) && 0 <= i
    ensures GuardedBefore(stmts, i + 1) <==> GuardedBefore(stmts[1..], i)
  {
    var rest := stmts[1..];
    if GuardedBefore(stmts, i + 1) {
      var j :| 0 <= j < i + 1 && j < |stmts| && IsGuardCall(stmts[j]);
      assert IsGuardCall(rest[j - 1]);
    }
    if GuardedBefore(rest, i) {
      var j :| 0 <= j < i && j < |rest| && IsGuardCall(rest[j]);
      assert IsGuardCall(stmts[j + 1]);
    }
  }

  /** Once the guard flag is set it is never reset: the scan can no longer report. */
  lemma {:induction false} ProtectionIsPermanent(stmts: seq<Stmt>)
    ensures !ScanFrom(stmts, true)
    decreases |stmts|
  {
    if |stmts| > 0 {
      assert Step(true, stmts[0]) == Scanning(true);
      ProtectionIsPermanent(stmts[1..]);
    }
  }

  /** The scan stops at the first unprotected destructive call: statements
      appended after a body that already reports cannot change the answer. */
  lemma {:induction false} AppendAfterUnprotected(stmts: seq<Stmt>, more: seq<Stmt>, protectionFound: bool)
    requires ScanFrom(stmts, protectionFound)
    ensures ScanFrom(stmts + more, protectionFound)
    decreases |stmts|
  {
    assert (stmts + more)[0] == stmts[0];
    match Step(protectionFound, stmts[0])
    case Unprotected =>
    case Scanning(p) =>
      assert (stmts + more)[1..] == stmts[1..] + more;
      AppendAfterUnprotected(stmts[1..], more, p);
  }

  /** A body without any destructive call never reports. */
  lemma NoDestructiveCallNoFinding(stmts: seq<Stmt>)
    requires forall i :: 0 <= i < |stmts| ==> !IsDestructiveCall(stmts[i])
    ensures !ContainsUnprotectedSelfdestruct(stmts)
  {
  }

  /** A guard call placed first protects everything after it. */
  lemma GuardFirstProtects(args: seq<Expr>, stmts: seq<Stmt>)
    ensures !ContainsUnprotectedSelfdestruct([ExprStmt(Call(Ident("require"), args))] + stmts)
  {
    var body := [ExprStmt(Call(Ident("require"), args))] + stmts;
    assert Step(false, body[0]) == Scanning(true);
    assert body[1..] == stmts;
    ProtectionIsPermanent(stmts);
  }

  function Guard(x: string): Stmt { ExprStmt(Call(Ident("require"), [Ident(x)])) }
  function Destruct(callee: string, x: string): Stmt { ExprStmt(Call(Ident(callee), [Ident(x)])) }

  /** `require(x); selfdestruct(y);` is protected. */
  lemma GuardThenDestruct(x: string, y: string)
    ensures !ContainsUnprotectedSelfdestruct([Guard(x), Destruct("selfdestruct", y)])
  {
    GuardFirstProtects([Ident(x)], [Destruct("selfdestruct", y)]);
  }

  /** `selfdestruct(y); require(x);` is not: a later guard does not protect an
      earlier call. */
  lemma DestructThenGuard(x: string, y: string)
    ensures ContainsUnprotectedSelfdestruct([Destruct("selfdestruct", y), Guard(x)])
  {
    assert IsDestructiveCall([Destruct("selfdestruct", y), Guard(x)][0]);
  }

  /** `selfdestruct(y);` alone is unprotected. */
  lemma LoneDestruct(y: string)
    ensures ContainsUnprotectedSelfdestruct([Destruct("selfdestruct", y)])
  {
    assert IsDestructiveCall([Destruct("selfdestruct", y)][0]);
  }

  /** `require(x); suicide(y); selfdestruct(z);` is fully protected: the guard
      comes before both destructive calls. */
  lemma GuardThenTwoDestructs(x: string, y: string, z: string)
    ensures !ContainsUnprotectedSelfdestruct([Guard(x), Destruct("suicide", y), Destruct("selfdestruct", z)])
  {
    GuardFirstProtects([Ident(x)], [Destruct("suicide", y), Destruct("selfdestruct", z)]);
  }

  /** The name a finding gives a function: its own, or "unknown" for an
      unnamed one. */
  function FunctionLabel(name: Option<string>): (shown: string)
    ensures name.Some? ==> shown == name.value
    ensures name.None? ==> shown == "unknown"
  {
    match name
    case Some(n) => n
    case None => "unknown"
  }

  /** Item `i` is a function with a body holding an unprotected destructive call. */
  ghost predicate FlagsFunction(items: seq<ContractItem>, i: int)
  {
    && 0 <= i < |items|
    && items[i].FuncDef?
    && items[i].body.Some?
    && HasUnprotectedDestruct(items[i].body.value)
  }

  /** The functions of the contract that the detector flags, by position. */
  ghost function FlaggedFunctions(items: seq<ContractItem>): set<int>
  {
    set i | 0 <= i < |items| && FlagsFunction(items, i)
  }

  /** The warning one contract item contributes: one naming the function when it
      is a function whose body the scan flags, none otherwise. */
  function FunctionWarnings(item: ContractItem): seq<Finding>
  {
    match item
    case FuncDef(name, Some(stmts)) =>
      if ContainsUnprotectedSelfdestruct(stmts) then [UnprotectedSelfdestruct(FunctionLabel(name))] else []
    case _ => []
  }

  /** An item yields one warning, naming the function, exactly when it is a
      function whose body holds an unprotected destructive call, and none
      otherwise. */
  lemma FunctionWarningsSpec(item: ContractItem)
    ensures |FunctionWarnings(item)| <= 1
    ensures FunctionWarnings(item) != [] <==> item.FuncDef? && item.body.Some? && HasUnprotectedDestruct(item.body.value)
    ensures FunctionWarnings(item) != [] ==> FunctionWarnings(item) == [UnprotectedSelfdestruct(FunctionLabel(item.fnName))]
  {
  }

  /** The warnings of a contract: one per function whose body holds an
      unprotected destructive call, in item order, each naming the function.
      Each function is scanned with a fresh flag, so a guard in one function
      never protects another. */
  function AnalyzeSelfdestructContract(items: seq<ContractItem>): (warnings: seq<Finding>)
    ensures |warnings| == |FlaggedFunctions(items)|
    ensures forall k :: 0 <= k < |warnings| ==> warnings[k].UnprotectedSelfdestruct?
    ensures forall name :: UnprotectedSelfdestruct(name) in warnings <==>
      exists i :: FlagsFunction(items, i) && FunctionLabel(items[i].fnName) == name
  {
    SelfdestructCount(items);
    SelfdestructLabels(items);
    Collect(items, FunctionWarnings)
  }

  /** The loop over the items emits one warning per flagged function. */
  lemma {:induction false} SelfdestructCount(items: seq<ContractItem>)
    ensures |Collect(items, FunctionWarnings)| == |FlaggedFunctions(items)|
    decreases |items|
  {
    if |items| == 0 {
      assert FlaggedFunctions(items) == {};
    } else {
      var last := |items| - 1;
      var prefix := items[..last];
      SelfdestructCount(prefix);
      FunctionWarningsSpec(items[last]);
      FlaggedFunctionsSnoc(items);
      assert Collect(items, FunctionWarnings) == Collect(prefix, FunctionWarnings) + FunctionWarnings(items[last]);
    }
  }

  /** The loop over the items emits only selfdestruct findings, and a label
      appears exactly when some flagged function carries it. */
  lemma {:induction false} SelfdestructLabels(items: seq<ContractItem>)
    ensures forall k :: 0 <= k < |Collect(items, FunctionWarnings)| ==> Collect(items, FunctionWarnings)[k].UnprotectedSelfdestruct?
    ensures forall name :: UnprotectedSelfdestruct(name) in Collect(items, FunctionWarnings) <==>
      exists i :: FlagsFunction(items, i) && FunctionLabel(items[i].fnName) == name
    decreases |items|
  {
    if |items| > 0 {
      var last := |items| - 1;
      var prefix := items[..last];
      var here := FunctionWarnings(items[last]);
      var before := Collect(prefix, FunctionWarnings);
      FunctionWarningsSpec(items[last]);
      SelfdestructLabels(prefix);
      FlaggedFunctionsSnoc(items);
      assert Collect(items, FunctionWarnings) == before + here;
      assert forall name :: UnprotectedSelfdestruct(name) in here <==>
        FlagsFunction(items, last) && FunctionLabel(items[last].fnName) == name;
    }
  }

  /** The flagged functions of a non-empty contract are those of all items but
      the last, plus the last when it is flagged. */
  lemma FlaggedFunctionsSnoc(items: seq<ContractItem>)
    requires |items| > 0
    ensures var last := |items| - 1;
      FlaggedFunctions(items)
      == FlaggedFunctions(items[..last]) + (if FlagsFunction(items, last) then {last} else {})
    ensures |items| - 1 !in FlaggedFunctions(items[..|items| - 1])
    ensures forall i :: FlagsFunction(items[..|items| - 1], i) <==> 0 <= i < |items| - 1 && FlagsFunction(items, i)
  {
    var last := |items| - 1;
    var prefix := items[..last];
    forall i
      ensures FlagsFunction(prefix, i) <==> 0 <= i < last && FlagsFunction(items, i)
    {
      if 0 <= i < last {
        assert prefix[i] == items[i];
      }
    }
  }

  /** The warnings of two consecutive runs of items are those of the first run
      followed by those of the second: the order of the findings is the order of
      the functions, with nothing merged or repeated. */
  lemma SelfdestructWarningsAppend(front: seq<ContractItem>, back: seq<ContractItem>)
    ensures AnalyzeSelfdestructContract(front + back)
         == AnalyzeSelfdestructContract(front) + AnalyzeSelfdestructContract(back)
  {
    CollectAppend(front, back, FunctionWarnings);
  }

  /** A contract of one item yields exactly that item's warning. */
  lemma SelfdestructWarningsSingle(item: ContractItem)
    ensures AnalyzeSelfdestructContract([item]) == FunctionWarnings(item)
  {
    CollectSingle(item, FunctionWarnings);
  }

  /** A guard in one function does not protect another function. */
  lemma GuardDoesNotCrossFunctions(x: string, y: string)
    ensures AnalyzeSelfdestructContract([
      FuncDef(Some("guard"), Some([Guard(x)])),
      FuncDef(Some("kill"), Some([Destruct("selfdestruct", y)]))])
      == [UnprotectedSelfdestruct("kill")]
  {
    var guard := FuncDef(Some("guard"), Some([Guard(x)]));
    var kill := FuncDef(Some("kill"), Some([Destruct("selfdestruct", y)]));
    assert [guard, kill] == [guard] + [kill];
    SelfdestructWarningsAppend([guard], [kill]);
    SelfdestructWarningsSingle(guard);
    SelfdestructWarningsSingle(kill);
    assert !ContainsUnprotectedSelfdestruct([Guard(x)]) by {
      assert !IsDestructiveCall([Guard(x)][0]);
    }
    LoneDestruct(y);
  }

  /** Two flagged functions without names yield two findings, both labelled
      `unknown`: findings are per function, not per label. */
  lemma UnnamedFunctionsReportedSeparately(y: string)
    ensures var f := FuncDef(None, Some([Destruct("suicide", y)]));
      AnalyzeSelfdestructContract([f, f])
      == [UnprotectedSelfdestruct("unknown"), UnprotectedSelfdestruct("unknown")]
  {
    var f := FuncDef(None, Some([Destruct("suicide", y)]));
    assert [f, f] == [f] + [f];
    SelfdestructWarningsAppend([f], [f]);
    SelfdestructWarningsSingle(f);
    assert IsDestructiveCall([Destruct("suicide", y)][0]);
  }
}
