/** Evaluation with borrowed adaptors: each expression has a pool of parsed copies whose variable
    cells are overwritten at every use. */
module ConditionPools {
  import opened CText
  import opened Conditions

  /** A parsed copy of an expression; `value` are the cells its parser reads. */
  class ExprAdaptor {
    const expr: Expr
    const index: seq<int>
    var value: seq<int>

    /** open(): one entry and one zeroed cell for each variable. */
    constructor (expr: Expr, names: seq<string>, field: string -> int)
      ensures this.expr == expr && |index| == |value| == |names|
      ensures forall i :: 0 <= i < |names| ==> index[i] == Source(names[i], field) && value[i] == 0
    {
      var index0, value0 := [], [];
      var i := 0;
      while i < |names|
        invariant i == |index0| == |value0| <= |names|
        invariant forall j :: 0 <= j < i ==> index0[j] == Source(names[j], field) && value0[j] == 0
      {
        index0 := index0 + [Source(names[i], field)];
        value0 := value0 + [0];
        i := i + 1;
      }
      this.expr := expr;
      index := index0;
      value := value0;
    }
  }

  class SettCondition {
    ghost const defs: Definitions
    ghost const rank: map<int, nat>
    /** The pool each adaptor was made for. */
    ghost const pool: map<ExprAdaptor, int>
    /** For each expression the adaptors of its pool that are not borrowed. */
    var free: map<int, set<ExprAdaptor>>

    /** init(): a pool for every expression. */
    constructor (ghost defs: Definitions, ghost rank: map<int, nat>,
                 pools: map<int, set<ExprAdaptor>>, ghost pool: map<ExprAdaptor, int>)
      requires Acyclic(defs, rank) && pools.Keys == defs.Keys
      requires forall id, a :: id in pools && a in pools[id] ==>
                 && a in pool && pool[a] == id
                 && a.expr == defs[id].expr && a.index == defs[id].index && |a.value| == |a.index|
      ensures Valid() && free == pools && this.defs == defs && this.rank == rank
    {
      this.defs, this.rank, this.pool, free := defs, rank, pool, pools;
    }

    /** One pool: `size` parsed copies of an expression. */
    static method NewPool(expr: Expr, names: seq<string>, field: string -> int, size: nat) returns (made: set<ExprAdaptor>)
      ensures fresh(made) && |made| == size
      ensures forall a :: a in made ==>
                && a.expr == expr && |a.index| == |a.value| == |names|
                && forall i :: 0 <= i < |names| ==> a.index[i] == Source(names[i], field)
    {
      made := {};
      while |made| < size
        invariant fresh(made) && |made| <= size
        invariant forall a :: a in made ==>
                    && a.expr == expr && |a.index| == |a.value| == |names|
                    && forall i :: 0 <= i < |names| ==> a.index[i] == Source(names[i], field)
      {
        var a := new ExprAdaptor(expr, names, field);
        made := made + {a};
      }
    }

    ghost function FreeSet(): set<ExprAdaptor>
      reads this
    {
      set id, a | id in free && a in free[id] :: a
    }

    /** Every pool holds copies of its own expression, with whatever is left in their cells. */
    ghost predicate Valid()
      reads this, FreeSet()
    {
      && Acyclic(defs, rank) && free.Keys == defs.Keys
      && forall id, a {:trigger a in free[id]} :: id in free && a in free[id] ==> Fits(a, id)
    }

    ghost predicate Fits(a: ExprAdaptor, id: int)
      requires id in defs
      reads a
    {
      a in pool && pool[a] == id && a.expr == defs[id].expr && a.index == defs[id].index && |a.value| == |a.index|
    }

    /** Nothing of rank up to `r` waits for an adaptor. */
    ghost predicate Stocked(r: nat)
      requires Valid()
      reads this, FreeSet()
    {
      forall id :: id in free && rank[id] <= r ==> free[id] != {}
    }

    /** pool.get_object(): any adaptor that is free. */
    method GetObject(id: int) returns (a: ExprAdaptor)
      requires Valid() && id in free && free[id] != {}
      modifies this`free
      ensures a in old(free[id]) && free == old(free)[id := old(free[id]) - {a}]
      ensures Valid() && a !in FreeSet() && Fits(a, id)
    {
      a :| a in free[id];
      free := free[id := free[id] - {a}];
    }

    /** pool.revert_object(). */
    method RevertObject(id: int, a: ExprAdaptor)
      requires Valid() && id in free && Fits(a, id) && a !in FreeSet()
      modifies this`free
      ensures free == old(free)[id := old(free[id]) + {a}] && Valid()
    {
      free := free[id := free[id] + {a}];
    }

    /** sett_condition::eval: whichever adaptor is borrowed and whatever its cells held, the result
        is the expression's value, and every adaptor is back in its pool. */
    method Eval(id: int, rec: Record) returns (ret: int)
      requires Valid() && id in free && Stocked(rank[id])
      modifies this`free, FreeSet()
      ensures Valid() && free == old(free)
      ensures ret == Worth(defs, rank, id, rec)
      decreases rank[id], 2
    {
      var a := GetObject(id);
      ret := EvalAdaptor(a, id, rec);
      RevertObject(id, a);
      PutBack(old(free), id, a);
    }

    lemma PutBack(pools: map<int, set<ExprAdaptor>>, id: int, a: ExprAdaptor)
      requires id in pools && a in pools[id]
      ensures pools[id := pools[id] - {a}][id := pools[id] - {a} + {a}] == pools
    {
      assert pools[id] - {a} + {a} == pools[id];
    }

    /** What a cell is filled with: another expression's value or a field of the record. */
    method Input(index: int, rec: Record) returns (v: int)
      requires Valid() && (index < 0 ==> -index in free && Stocked(rank[-index]))
      modifies this`free, FreeSet()
      ensures Valid() && free == old(free)
      ensures v == if index < 0 then Worth(defs, rank, -index, rec) else rec(index)
      decreases if index < 0 then rank[-index] + 1 else 0, 0
    {
      if index < 0 {
        v := Eval(-index, rec);
      } else {
        v := rec(index);
      }
    }

    lemma Extend(cells: seq<int>, x: nat, v: int)
      requires x < |cells|
      ensures cells[x := v][..x + 1] == cells[..x] + [v]
    {
    }

    /** expr_adaptor::eval. */
    method EvalAdaptor(a: ExprAdaptor, ghost id: int, rec: Record) returns (ret: int)
      requires Valid() && id in free && Fits(a, id) && a !in FreeSet()
      requires forall k :: k in free && rank[k] < rank[id] ==> free[k] != {}
      modifies this`free, a, FreeSet()
      ensures Valid() && free == old(free) && Fits(a, id)
      ensures ret == Worth(defs, rank, id, rec)
      decreases rank[id], 1
    {
      ghost var start := free;
      var x := 0;
      while x < |a.index|
        invariant 0 <= x <= |a.index| && Valid() && free == start && Fits(a, id) && a !in FreeSet()
        invariant a.value[..x] == Cells(defs, rank, id, rec, x)
      {
        CellsNext(defs, rank, id, rec, x);
        var v := Input(a.index[x], rec);
        Extend(a.value, x, v);
        a.value := a.value[x := v];
        x := x + 1;
      }
      assert a.value[..x] == a.value;
      return OrZero(Evaluate(a.expr, a.value));
    }

    /** sett_condition::fit. */
    method Fit(id: int, rec: Record) returns (ret: bool)
      requires Valid() && id in free && Stocked(rank[id])
      modifies this`free, FreeSet()
      ensures Valid() && free == old(free)
      ensures ret <==> Worth(defs, rank, id, rec) != 0
    {
      var v := Eval(id, rec);
      return v != 0;
    }
  }
}
