/** The parsed contract tree the analyzer reads, reduced to the node kinds the
    detectors look at, and the findings they produce.

    Identifiers are modelled by their names: two identifiers are the same symbol
    exactly when their names are equal. Every node kind the detectors do not
    inspect is collapsed into one "other" constructor. */
module Ast {

  /** An optional value: a declaration or function header may lack a name, and a
      function may lack a body. */
  datatype Option<+T> = None | Some(value: T)

  /** The kind of a binary operator; only division and multiplication are told apart. */
  datatype BinOpKind = Div | Mul | OtherOp

  datatype Expr =
    | Ident(name: string)
    | Call(callee: Expr, args: seq<Expr>)
    | Binary(left: Expr, op: BinOpKind, right: Expr)
    | OtherExpr

  /** A statement: only the bare expression statement is interpreted; blocks,
      conditionals, loops and the rest are `OtherStmt` and are never entered. */
  datatype Stmt = ExprStmt(expr: Expr) | OtherStmt

  /** An item of a contract body. `FuncDef` stands for every function-like item
      (functions, constructors, modifiers, fallback and receive functions). */
  datatype ContractItem =
    | VarDecl(varName: Option<string>)
    | FuncDef(fnName: Option<string>, body: Option<seq<Stmt>>)
    | OtherItem

  datatype Contract = Contract(name: string, items: seq<ContractItem>)

  /** A top-level item of a source file. */
  datatype SourceItem = ContractDef(contract: Contract) | OtherSourceItem

  type SourceUnit = seq<SourceItem>

  /** One warning the analyzer emits, with the context its message names. */
  datatype Finding =
    | UnusedVariable(contract: string, variable: string)
    | DivisionBeforeMultiplication
    | UnprotectedSelfdestruct(fn: string)

  /** The statement at position `j` of the body of item `i` exists. */
  predicate HasStmtAt(items: seq<ContractItem>, i: int, j: int)
  {
    && 0 <= i < |items|
    && items[i].FuncDef?
    && items[i].body.Some?
    && 0 <= j < |items[i].body.value|
  }

  /** The item-by-item loop every pass of the analyzer runs: each item
      contributes a run of outputs, appended in item order. */
  function Collect<T, U>(items: seq<T>, each: T -> seq<U>): seq<U>
    decreases |items|
  {
    if |items| == 0 then []
    else Collect(items[..|items| - 1], each) + each(items[|items| - 1])
  }

  /** The loop over two consecutive runs of items yields the outputs of the
      first run followed by those of the second. */
  lemma {:induction false} CollectAppend<T, U>(front: seq<T>, back: seq<T>, each: T -> seq<U>)
    ensures Collect(front + back, each) == Collect(front, each) + Collect(back, each)
    decreases |back|
  {
    if |back| == 0 {
      assert front + back == front;
    } else {
      var shorter := back[..|back| - 1];
      var item := back[|back| - 1];
      assert back == shorter + [item];
      assert front + back == (front + shorter) + [item];
      CollectAppend(front, shorter, each);
      CollectSnoc(front + shorter, item, each);
      CollectSnoc(shorter, item, each);
    }
  }

  /** One more item appends exactly that item's outputs. */
  lemma CollectSnoc<T, U>(items: seq<T>, item: T, each: T -> seq<U>)
    ensures Collect(items + [item], each) == Collect(items, each) + each(item)
  {
    assert (items + [item])[..|items|] == items;
  }

  /** The loop over a single item yields exactly that item's outputs. */
  lemma CollectSingle<T, U>(item: T, each: T -> seq<U>)
    ensures Collect([item], each) == each(item)
  {
    assert [item][..0] == [];
  }
}
