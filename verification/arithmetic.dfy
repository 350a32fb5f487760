/** The arithmetic-order detector of the Counter analysis (`check_unsafe_arithmetic`,
    `contains_div_before_mul`, `check_for_multiplication`).

    The match is purely syntactic and one level deep: a statement is flagged when
    it is an expression statement whose expression is a division whose right
    operand is a multiplication, `a / (b * c)`. Nothing deeper is inspected. */
module Arithmetic {
  import opened Ast

  /** The expression is literally a multiplication node. */
  function CheckForMultiplication(e: Expr): (isMul: bool)
    ensures isMul <==> exists l, r :: e == Binary(l, Mul, r)
  {
    match e
    case Binary(l, Mul, r) => assert e == Binary(l, Mul, r); true
    case _ => false
  }

  /** The shape `a / (b * c)` at the root of an expression. */
  ghost predicate IsDivOfMul(e: Expr)
  {
    exists a, b, c :: e == Binary(a, Div, Binary(b, Mul, c))
  }

  /** The statement is an expression statement of shape `a / (b * c)`. */
  ghost predicate IsFlagged(stmt: Stmt)
  {
    stmt.ExprStmt? && IsDivOfMul(stmt.expr)
  }

  /** The root of the expression is a division whose right operand is a
      multiplication; the left operand, and anything below the multiplication,
      plays no part. */
  function ContainsDivBeforeMul(e: Expr): (found: bool)
    ensures found <==> IsDivOfMul(e)
  {
    match e
    case Binary(a, op, right) =>
      if op == Div then
        var isMul := CheckForMultiplication(right);
        assert isMul ==> e == Binary(a, Div, Binary(right.left, Mul, right.right));
        isMul
      else false
    case _ => false
  }

  /** The warnings one statement produces: at most one, and only for an
      expression statement. */
  function CheckUnsafeArithmetic(stmt: Stmt): (warnings: seq<Finding>)
    ensures |warnings| <= 1
    ensures warnings != [] <==> IsFlagged(stmt)
    ensures warnings != [] ==> stmt.ExprStmt? && warnings == [DivisionBeforeMultiplication]
  {
    match stmt
    case ExprStmt(e) => if ContainsDivBeforeMul(e) then [DivisionBeforeMultiplication] else []
    case _ => []
  }

  /** The positions of the flagged statements of a body. */
  ghost function FlaggedPositions(stmts: seq<Stmt>): set<int>
  {
    set j | 0 <= j < |stmts| && IsFlagged(stmts[j])
  }

  /** Every finding of the sequence is a division-before-multiplication warning. */
  predicate AllDivisionWarnings(warnings: seq<Finding>)
  {
    forall k :: 0 <= k < |warnings| ==> warnings[k] == DivisionBeforeMultiplication
  }

  /** The warnings of a function body, in statement order: exactly one per
      flagged statement. */
  function ArithmeticInBody(stmts: seq<Stmt>): (warnings: seq<Finding>)
    ensures AllDivisionWarnings(warnings)
    ensures |warnings| == |FlaggedPositions(stmts)|
    decreases |stmts|
  {
    if |stmts| == 0 then
      assert FlaggedPositions(stmts) == {};
      []
    else
      var prefix := stmts[..|stmts| - 1];
      FlaggedPositionsSnoc(stmts);
      ArithmeticInBody(prefix) + CheckUnsafeArithmetic(stmts[|stmts| - 1])
  }

  /** The flagged positions of a non-empty body are those of its prefix plus,
      when the last statement is flagged, the last position. */
  lemma FlaggedPositionsSnoc(stmts: seq<Stmt>)
    requires |stmts| > 0
    ensures var last := |stmts| - 1;
      FlaggedPositions(stmts)
      == FlaggedPositions(stmts[..last]) + (if IsFlagged(stmts[last]) then {last} else {})
    ensures |stmts| - 1 !in FlaggedPositions(stmts[..|stmts| - 1])
  {
    var last := |stmts| - 1;
    var prefix := stmts[..last];
    assert forall j :: 0 <= j < last ==> prefix[j] == stmts[j];
  }

  /** A body yields no warning exactly when none of its statements is flagged. */
  lemma BodyWarningsEmpty(stmts: seq<Stmt>)
    ensures ArithmeticInBody(stmts) == [] <==> forall j :: 0 <= j < |stmts| ==> !IsFlagged(stmts[j])
  {
    if ArithmeticInBody(stmts) == [] {
      assert FlaggedPositions(stmts) == {};
      forall j | 0 <= j < |stmts|
        ensures !IsFlagged(stmts[j])
      {
        assert j !in FlaggedPositions(stmts);
      }
    } else {
      var j :| j in FlaggedPositions(stmts);
    }
  }

  /** The warnings one contract item contributes: those of its body when it
      is a function with a body, none otherwise. */
  function ItemWarnings(item: ContractItem): seq<Finding>
  {
    match item
    case FuncDef(_, Some(stmts)) => ArithmeticInBody(stmts)
    case _ => []
  }

  /** No statement of any function body of the contract is flagged. */
  ghost predicate NoFlaggedStmt(items: seq<ContractItem>)
  {
    forall i, j :: HasStmtAt(items, i, j) ==> !IsFlagged(items[i].body.value[j])
  }

  /** The warnings of a contract: every function body in item order. Functions
      without a body and other items contribute nothing. */
  function ArithmeticWarnings(items: seq<ContractItem>): (warnings: seq<Finding>)
    ensures AllDivisionWarnings(warnings)
    ensures warnings == [] <==> NoFlaggedStmt(items)
  {
    ArithmeticWarningsSpec(items);
    Collect(items, ItemWarnings)
  }

  /** The loop over the items emits only division warnings, and none exactly
      when no statement of any function body is flagged. */
  lemma {:induction false} ArithmeticWarningsSpec(items: seq<ContractItem>)
    ensures AllDivisionWarnings(Collect(items, ItemWarnings))
    ensures Collect(items, ItemWarnings) == [] <==> NoFlaggedStmt(items)
    decreases |items|
  {
    if |items| > 0 {
      var last := |items| - 1;
      var prefix := items[..last];
      ArithmeticWarningsSpec(prefix);
      NoFlaggedSnoc(items);
      var before := Collect(prefix, ItemWarnings);
      var here := ItemWarnings(items[last]);
      assert AllDivisionWarnings(here);
      var whole := before + here;
      assert Collect(items, ItemWarnings) == whole;
      forall k | 0 <= k < |whole|
        ensures whole[k] == DivisionBeforeMultiplication
      {
        if k < |before| {
          assert whole[k] == before[k];
        } else {
          assert whole[k] == here[k - |before|];
        }
      }
    }
  }

  /** The warnings of two consecutive runs of items are those of the first run
      followed by those of the second. With `ArithmeticWarningsSingle` and the
      count of `ArithmeticInBody`, this fixes the warnings of a contract: each
      function body in item order, one warning per flagged statement. */
  lemma ArithmeticWarningsAppend(front: seq<ContractItem>, back: seq<ContractItem>)
    ensures ArithmeticWarnings(front + back) == ArithmeticWarnings(front) + ArithmeticWarnings(back)
  {
    CollectAppend(front, back, ItemWarnings);
  }

  /** A contract of one item yields exactly the warnings of that item's body. */
  lemma ArithmeticWarningsSingle(item: ContractItem)
    ensures ArithmeticWarnings([item]) == ItemWarnings(item)
  {
    CollectSingle(item, ItemWarnings);
  }

  /** A non-empty contract has no flagged statement exactly when all items but
      the last have none and the last item yields no warning. */
  lemma NoFlaggedSnoc(items: seq<ContractItem>)
    requires |items| > 0
    ensures NoFlaggedStmt(items) <==> NoFlaggedStmt(items[..|items| - 1]) && ItemWarnings(items[|items| - 1]) == []
  {
    NoFlaggedShrink(items);
    NoFlaggedGrow(items);
  }

  /** Dropping the last item, or looking at it alone, keeps a contract free of
      flagged statements. */
  lemma NoFlaggedShrink(items: seq<ContractItem>)
    requires |items| > 0
    ensures NoFlaggedStmt(items) ==> NoFlaggedStmt(items[..|items| - 1]) && ItemWarnings(items[|items| - 1]) == []
  {
    var last := |items| - 1;
    var prefix := items[..last];
    if NoFlaggedStmt(items) {
      forall i, j | HasStmtAt(prefix, i, j)
        ensures !IsFlagged(prefix[i].body.value[j])
      {
        assert HasStmtAt(items, i, j);
      }
      if items[last].FuncDef? && items[last].body.Some? {
        var stmts := items[last].body.value;
        BodyWarningsEmpty(stmts);
        forall j | 0 <= j < |stmts|
          ensures !IsFlagged(stmts[j])
        {
          assert HasStmtAt(items, last, j);
        }
      }
    }
  }

  /** A last item that yields no warning, after items free of flagged
      statements, leaves the contract free of them. */
  lemma NoFlaggedGrow(items: seq<ContractItem>)
    requires |items| > 0
    ensures NoFlaggedStmt(items[..|items| - 1]) && ItemWarnings(items[|items| - 1]) == [] ==> NoFlaggedStmt(items)
  {
    var last := |items| - 1;
    var prefix := items[..last];
    if NoFlaggedStmt(prefix) && ItemWarnings(items[last]) == [] {
      if items[last].FuncDef? && items[last].body.Some? {
        BodyWarningsEmpty(items[last].body.value);
      }
      forall i, j | HasStmtAt(items, i, j)
        ensures !IsFlagged(items[i].body.value[j])
      {
        if i < last {
          assert HasStmtAt(prefix, i, j);
        }
      }
    }
  }

  /** `a / (b * c)` is flagged. */
  lemma DivOfProductFlagged(a: string, b: string, c: string)
    ensures ContainsDivBeforeMul(Binary(Ident(a), Div, Binary(Ident(b), Mul, Ident(c))))
  {
  }

  /** `(a * b) / c` is not flagged: the multiplication is on the left. */
  lemma ProductOverDivisorNotFlagged(a: string, b: string, c: string)
    ensures !ContainsDivBeforeMul(Binary(Binary(Ident(a), Mul, Ident(b)), Div, Ident(c)))
  {
  }

  /** `a / b` is not flagged. */
  lemma PlainDivisionNotFlagged(a: string, b: string)
    ensures !ContainsDivBeforeMul(Binary(Ident(a), Div, Ident(b)))
  {
  }

  /** `a / b * c` groups as `(a / b) * c`, which is not flagged. */
  lemma LeftGroupedDivisionNotFlagged(a: string, b: string, c: string)
    ensures !ContainsDivBeforeMul(Binary(Binary(Ident(a), Div, Ident(b)), Mul, Ident(c)))
  {
  }

  /** The match does not look below the root: a flagged shape nested under any
      other operator, or inside a call, is not reported. */
  lemma NestedShapeNotFlagged(e: Expr, x: Expr, op: BinOpKind, args: seq<Expr>)
    requires op != Div
    ensures !ContainsDivBeforeMul(Binary(x, op, e))
    ensures !ContainsDivBeforeMul(Binary(e, op, x))
    ensures !ContainsDivBeforeMul(Call(e, args))
  {
  }
}
