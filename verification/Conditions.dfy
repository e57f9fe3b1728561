/** Conditions that refer to other conditions: the expressions, what they mean, and what the
    variables of a parsed expression stand for. */
module Conditions {
  import opened CText

  datatype Op = Add | Sub | Mul | Div | Less | And | Or

  /** A parsed expression; a variable is the number of its cell. */
  datatype Expr = Const(n: int) | Cell(i: nat) | Bin(op: Op, left: Expr, right: Expr)

  /** The record a condition is applied to. */
  type Record = int -> int

  /** An expression and, cell by cell, where its variables come from: a negative number is minus the
      id of another expression, any other number a field of the record. */
  datatype Definition = Definition(expr: Expr, index: seq<int>)

  type Definitions = map<int, Definition>

  function Apply(op: Op, a: int, b: int): Option<int> {
    match op
    case Add => Some(a + b)
    case Sub => Some(a - b)
    case Mul => Some(a * b)
    case Div => if b == 0 then None else Some(if a >= 0 then a / b else -(-a / b))
    case Less => Some(if a < b then 1 else 0)
    case And => Some(if a != 0 && b != 0 then 1 else 0)
    case Or => Some(if a != 0 || b != 0 then 1 else 0)
  }

  /** The parser's Eval: None is an exception. */
  function Evaluate(e: Expr, cells: seq<int>): Option<int> {
    match e
    case Const(n) => Some(n)
    case Cell(i) => if i < |cells| then Some(cells[i]) else None
    case Bin(op, l, r) =>
      var a, b := Evaluate(l, cells), Evaluate(r, cells);
      if a.None? || b.None? then None else Apply(op, a.value, b.value)
  }

  /** An exception is logged and counts as 0. */
  function OrZero(v: Option<int>): int {
    if v.Some? then v.value else 0
  }

  /** References lead to existing expressions of strictly lower rank. */
  predicate Acyclic(defs: Definitions, rank: map<int, nat>) {
    defs.Keys <= rank.Keys && forall id {:trigger RefersLower(defs, rank, id)} :: id in defs ==> RefersLower(defs, rank, id)
  }

  predicate RefersLower(defs: Definitions, rank: map<int, nat>, id: int)
    requires defs.Keys <= rank.Keys && id in defs
  {
    forall j :: 0 <= j < |defs[id].index| ==>
      var k := defs[id].index[j];
      k < 0 ==> -k in defs && rank[-k] < rank[id]
  }

  /** What expression `id` is worth on a record. */
  function Worth(defs: Definitions, rank: map<int, nat>, id: int, rec: Record): int
    requires Acyclic(defs, rank) && id in defs
    decreases rank[id], |defs[id].index| + 1
  {
    OrZero(Evaluate(defs[id].expr, Cells(defs, rank, id, rec, |defs[id].index|)))
  }

  /** The first `n` cells of expression `id`. */
  function Cells(defs: Definitions, rank: map<int, nat>, id: int, rec: Record, n: nat): (cells: seq<int>)
    requires Acyclic(defs, rank) && id in defs && n <= |defs[id].index|
    ensures |cells| == n
    decreases rank[id], n
  {
    if n == 0 then []
    else
      assert RefersLower(defs, rank, id);
      var k := defs[id].index[n - 1];
      Cells(defs, rank, id, rec, n - 1) + [if k < 0 then Worth(defs, rank, -k, rec) else rec(k)]
  }

  /** How the next cell extends those before it; a reference is to an expression of lower rank. */
  lemma CellsNext(defs: Definitions, rank: map<int, nat>, id: int, rec: Record, n: nat)
    requires Acyclic(defs, rank) && id in defs && n < |defs[id].index|
    ensures var k := defs[id].index[n];
            && (k < 0 ==> -k in defs && rank[-k] < rank[id])
            && Cells(defs, rank, id, rec, n + 1) ==
               Cells(defs, rank, id, rec, n) + [if k < 0 then Worth(defs, rank, -k, rec) else rec(k)]
  {
    assert RefersLower(defs, rank, id);
  }

  // ---------------------------------------------------------------- what expressions are worth

  /** Expression `id` cut down to the part `e` of it, on the same variables. */
  function Part(defs: Definitions, id: int, e: Expr): Definitions
    requires id in defs
  {
    defs[id := defs[id].(expr := e)]
  }

  lemma PartAcyclic(defs: Definitions, rank: map<int, nat>, id: int, e: Expr)
    requires Acyclic(defs, rank) && id in defs
    ensures Acyclic(Part(defs, id, e), rank) && Part(defs, id, e)[id].index == defs[id].index
  {
    forall k | k in Part(defs, id, e) ensures RefersLower(Part(defs, id, e), rank, k) {
      assert RefersLower(defs, rank, k);
    }
  }

  /** What part `e` of expression `id` is worth on a record. */
  function PartWorth(defs: Definitions, rank: map<int, nat>, id: int, e: Expr, rec: Record): int
    requires Acyclic(defs, rank) && id in defs
  {
    PartAcyclic(defs, rank, id, e);
    Worth(Part(defs, id, e), rank, id, rec)
  }

  /** Expressions of lower rank do not see the change. */
  lemma {:induction false} LowerUnchanged(
    defs: Definitions, rank: map<int, nat>, id: int, e: Expr, k: int, rec: Record)
    requires Acyclic(defs, rank) && id in defs && Acyclic(Part(defs, id, e), rank) && k in defs && rank[k] < rank[id]
    ensures Worth(Part(defs, id, e), rank, k, rec) == Worth(defs, rank, k, rec)
    decreases rank[k], |defs[k].index| + 1
  {
    CellsUnchanged(defs, rank, id, e, k, rec, |defs[k].index|);
  }

  lemma {:induction false} CellsUnchanged(
    defs: Definitions, rank: map<int, nat>, id: int, e: Expr, k: int, rec: Record, n: nat)
    requires Acyclic(defs, rank) && id in defs && Acyclic(Part(defs, id, e), rank) && k in defs && rank[k] <= rank[id]
    requires n <= |defs[k].index| && Part(defs, id, e)[k].index == defs[k].index
    ensures Cells(Part(defs, id, e), rank, k, rec, n) == Cells(defs, rank, k, rec, n)
    decreases rank[k], n
  {
    if n > 0 {
      CellsUnchanged(defs, rank, id, e, k, rec, n - 1);
      CellsNext(defs, rank, k, rec, n - 1);
      CellsNext(Part(defs, id, e), rank, k, rec, n - 1);
      var j := defs[k].index[n - 1];
      if j < 0 {
        LowerUnchanged(defs, rank, id, e, -j, rec);
      }
    }
  }

  /** A part is evaluated on the cells of the whole expression. */
  lemma PartEvaluated(defs: Definitions, rank: map<int, nat>, id: int, e: Expr, rec: Record)
    requires Acyclic(defs, rank) && id in defs
    ensures PartWorth(defs, rank, id, e, rec) == OrZero(Evaluate(e, Cells(defs, rank, id, rec, |defs[id].index|)))
  {
    PartAcyclic(defs, rank, id, e);
    CellsUnchanged(defs, rank, id, e, id, rec, |defs[id].index|);
  }

  /** No variable without a cell, and no division by a part that is worth 0. */
  ghost predicate ErrorFree(defs: Definitions, rank: map<int, nat>, id: int, e: Expr, rec: Record)
    requires Acyclic(defs, rank) && id in defs
  {
    match e
    case Const(_) => true
    case Cell(i) => i < |defs[id].index|
    case Bin(op, l, r) =>
      && ErrorFree(defs, rank, id, l, rec) && ErrorFree(defs, rank, id, r, rec)
      && (op == Div ==> PartWorth(defs, rank, id, r, rec) != 0)
  }

  lemma {:induction false} ErrorFreeEvaluates(defs: Definitions, rank: map<int, nat>, id: int, e: Expr, rec: Record)
    requires Acyclic(defs, rank) && id in defs
    ensures ErrorFree(defs, rank, id, e, rec) <==> Evaluate(e, Cells(defs, rank, id, rec, |defs[id].index|)).Some?
  {
    if e.Bin? {
      ErrorFreeEvaluates(defs, rank, id, e.left, rec);
      ErrorFreeEvaluates(defs, rank, id, e.right, rec);
      PartEvaluated(defs, rank, id, e.right, rec);
    }
  }

  /** What an operator makes of the values of its parts; a quotient is cut towards zero. */
  predicate Computes(op: Op, a: int, b: int, v: int) {
    match op
    case Add => v == a + b
    case Sub => v == a - b
    case Mul => v == a * b
    case Div => b != 0 ==> Quotient(a, b, v)
    case Less => v == if a < b then 1 else 0
    case And => v == if a == 0 || b == 0 then 0 else 1
    case Or => v == if a == 0 && b == 0 then 0 else 1
  }

  predicate Quotient(a: int, b: int, v: int)
    requires b != 0
  {
    var rest := a - v * b;
    (if a >= 0 then 0 <= rest else rest <= 0) && (if b > 0 then -b < rest < b else b < rest < -b)
  }

  lemma ApplyComputes(op: Op, a: int, b: int)
    ensures Apply(op, a, b).Some? <==> !(op == Div && b == 0)
    ensures Apply(op, a, b).Some? ==> Computes(op, a, b, Apply(op, a, b).value)
  {
    if op == Div && b != 0 {
      if a >= 0 {
        QuotientIs(a, b);
      } else {
        QuotientIs(-a, b);
        assert Quotient(a, b, -(-a / b)) by { Opposite(-a / b, b); }
      }
    }
  }

  lemma QuotientIs(a: nat, b: int)
    requires b != 0
    ensures Quotient(a, b, a / b)
  {
    assert a == a / b * b + a % b;
  }

  lemma Opposite(q: int, b: int)
    ensures -q * b == -(q * b)
  {
  }

  lemma SomeQuotients()
    ensures Apply(Div, 7, 2) == Some(3) && Apply(Div, -7, 2) == Some(-3)
    ensures Apply(Div, 7, -2) == Some(-3) && Apply(Div, -7, -2) == Some(3) && Apply(Div, 7, 0) == None
  {
  }

  /** Without references everything is acyclic. */
  lemma FieldsAreFree(defs: Definitions, rank: map<int, nat>)
    requires rank.Keys == defs.Keys
    requires forall id, j :: id in defs && 0 <= j < |defs[id].index| ==> defs[id].index[j] >= 0
    ensures Acyclic(defs, rank)
  {
    forall id | id in defs ensures RefersLower(defs, rank, id) {
    }
  }

  /** What an expression is worth, by its form: a constant; what its variable stands for; what its
      operator makes of what the two parts are worth; and 0 when anything in it is an error. */
  lemma WorthIs(defs: Definitions, rank: map<int, nat>, id: int, rec: Record)
    requires Acyclic(defs, rank) && id in defs
    ensures var w := Worth(defs, rank, id, rec);
            if !ErrorFree(defs, rank, id, defs[id].expr, rec) then w == 0
            else match defs[id].expr
              case Const(n) => w == n
              case Cell(i) =>
                var k := defs[id].index[i];
                if k < 0 then -k in defs && w == Worth(defs, rank, -k, rec) else w == rec(k)
              case Bin(op, l, r) =>
                Computes(op, PartWorth(defs, rank, id, l, rec), PartWorth(defs, rank, id, r, rec), w)
  {
    var e := defs[id].expr;
    ErrorFreeEvaluates(defs, rank, id, e, rec);
    if e.Cell? && e.i < |defs[id].index| {
      CellIs(defs, rank, id, rec, |defs[id].index|, e.i);
    } else if e.Bin? {
      PartEvaluated(defs, rank, id, e.left, rec);
      PartEvaluated(defs, rank, id, e.right, rec);
      ErrorFreeEvaluates(defs, rank, id, e.left, rec);
      ErrorFreeEvaluates(defs, rank, id, e.right, rec);
      ApplyComputes(e.op, PartWorth(defs, rank, id, e.left, rec), PartWorth(defs, rank, id, e.right, rec));
    }
  }

  /** What a variable stands for. */
  lemma {:induction false} CellIs(defs: Definitions, rank: map<int, nat>, id: int, rec: Record, n: nat, i: nat)
    requires Acyclic(defs, rank) && id in defs && i < n <= |defs[id].index|
    ensures var k := defs[id].index[i];
            if k < 0 then -k in defs && Cells(defs, rank, id, rec, n)[i] == Worth(defs, rank, -k, rec)
            else Cells(defs, rank, id, rec, n)[i] == rec(k)
    decreases n
  {
    CellsNext(defs, rank, id, rec, n - 1);
    if i < n - 1 {
      CellIs(defs, rank, id, rec, n - 1, i);
    }
  }

  /** An error counts as 0 at its own expression and nowhere else: every expression is worth what it
      would be if the failing one were the constant 0. */
  lemma {:induction false} ErrorIsLocal(
    defs: Definitions, patched: Definitions, rank: map<int, nat>, bad: int, id: int, rec: Record)
    requires Acyclic(defs, rank) && bad in defs && id in defs
    requires Evaluate(defs[bad].expr, Cells(defs, rank, bad, rec, |defs[bad].index|)).None?
    requires patched == defs[bad := Definition(Const(0), [])] && Acyclic(patched, rank)
    ensures Worth(patched, rank, id, rec) == Worth(defs, rank, id, rec)
    decreases rank[id], |defs[id].index| + 1
  {
    if id != bad {
      ErrorIsLocalCells(defs, patched, rank, bad, id, rec, |defs[id].index|);
    }
  }

  lemma {:induction false} ErrorIsLocalCells(
    defs: Definitions, patched: Definitions, rank: map<int, nat>, bad: int, id: int, rec: Record, n: nat)
    requires Acyclic(defs, rank) && bad in defs && id in defs && id != bad && n <= |defs[id].index|
    requires Evaluate(defs[bad].expr, Cells(defs, rank, bad, rec, |defs[bad].index|)).None?
    requires patched == defs[bad := Definition(Const(0), [])] && Acyclic(patched, rank)
    ensures Cells(patched, rank, id, rec, n) == Cells(defs, rank, id, rec, n)
    decreases rank[id], n
  {
    if n > 0 {
      ErrorIsLocalCells(defs, patched, rank, bad, id, rec, n - 1);
      CellsNext(defs, rank, id, rec, n - 1);
      CellsNext(patched, rank, id, rec, n - 1);
      var k := defs[id].index[n - 1];
      if k < 0 {
        ErrorIsLocal(defs, patched, rank, bad, -k, rec);
      }
    }
  }

  /** The value does not depend on which ranking shows the references acyclic. */
  lemma {:induction false} RankIrrelevant(defs: Definitions, r1: map<int, nat>, r2: map<int, nat>, id: int, rec: Record)
    requires Acyclic(defs, r1) && Acyclic(defs, r2) && id in defs
    ensures Worth(defs, r1, id, rec) == Worth(defs, r2, id, rec)
    decreases r1[id], |defs[id].index| + 1
  {
    RankIrrelevantCells(defs, r1, r2, id, rec, |defs[id].index|);
  }

  lemma {:induction false} RankIrrelevantCells(
    defs: Definitions, r1: map<int, nat>, r2: map<int, nat>, id: int, rec: Record, n: nat)
    requires Acyclic(defs, r1) && Acyclic(defs, r2) && id in defs && n <= |defs[id].index|
    ensures Cells(defs, r1, id, rec, n) == Cells(defs, r2, id, rec, n)
    decreases r1[id], n
  {
    if n > 0 {
      RankIrrelevantCells(defs, r1, r2, id, rec, n - 1);
      CellsNext(defs, r1, id, rec, n - 1);
      CellsNext(defs, r2, id, rec, n - 1);
      var k := defs[id].index[n - 1];
      if k < 0 {
        RankIrrelevant(defs, r1, r2, -k, rec);
      }
    }
  }

  // ---------------------------------------------------------------- variable names

  /** expr_adaptor::open: what a variable's name stands for; `field` finds the record's columns. */
  function Source(name: string, field: string -> int): int {
    if "id_" <= name then -Atoi(name[3..]) else field("cls_" + name)
  }

  /** Nothing behind the prefix is read as 0. */
  lemma BareReference(field: string -> int)
    ensures Source("id_", field) == 0
  {
    assert "id_"[3..] == "";
  }

  /** A name without the prefix is that of a record field, which the record knows as "cls_" and the name. */
  lemma FieldName(name: string, field: string -> int)
    requires |name| < 3 || name[0] != 'i' || name[1] != 'd' || name[2] != '_'
    ensures Source(name, field) == field("cls_" + name)
  {
    IsReference(name);
  }

  lemma IsReference(name: string)
    ensures "id_" <= name <==> |name| >= 3 && name[0] == 'i' && name[1] == 'd' && name[2] == '_'
  {
    if |name| >= 3 {
      var p := name[..3];
      assert p[0] == name[0] && p[1] == name[1] && p[2] == name[2];
      assert "id_" <= name <==> p == "id_";
    }
  }

  /** "id_N" refers to expression N, except that id_0 is taken for the record's first field. */
  lemma ReferenceName(n: nat, field: string -> int)
    requires n <= LONG_MAX
    ensures Source("id_" + Dec(n), field) == -(n as int)
    ensures Source("id_" + Dec(n), field) < 0 <==> n >= 1
  {
    assert ("id_" + Dec(n))[3..] == Dec(n);
    GetLongDigits(Dec(n));
  }
}
