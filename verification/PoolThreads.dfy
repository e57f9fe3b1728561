/** Threads that evaluate conditions at the same time over bounded, blocking adaptor pools. */
module PoolThreads {
  import opened CText
  import opened Conditions

  /** A borrowed adaptor of expression `id` with its first `pos` cells filled or, for the last of
      them, about to be. */
  datatype Frame = Frame(id: int, pos: nat, cells: seq<int>)

  /** A thread: the record it evaluates on, evaluations still to start, an adaptor it is waiting for,
      the adaptors it holds, the values it has computed. */
  datatype Thread = Thread(rec: Record, todo: seq<int>, wants: Option<int>, stack: seq<Frame>, results: seq<int>)

  datatype State = State(threads: seq<Thread>, free: map<int, nat>)

  /** A thread moves; when it borrows an adaptor, `stale` is what the adaptor's cells hold. */
  datatype Move = Move(thread: nat, stale: seq<int>)

  function Top(t: Thread): Frame
    requires t.stack != []
  {
    t.stack[|t.stack| - 1]
  }

  predicate Done(t: Thread) {
    t.todo == [] && t.wants.None? && t.stack == []
  }

  /** A borrowed adaptor: one cell for each variable, whatever they hold. */
  function Borrowed(defs: Definitions, id: int, stale: seq<int>): Frame
    requires id in defs
  {
    var n := |defs[id].index|;
    Frame(id, 0, if |stale| == n then stale else seq(n, _ => 0))
  }

  /** A borrowed adaptor still holds what its last user left in the cells, whatever that was. */
  lemma AnythingLeft(defs: Definitions, id: int, stale: seq<int>)
    requires id in defs && |stale| == |defs[id].index|
    ensures Borrowed(defs, id, stale).cells == stale && Borrowed(defs, id, stale).pos == 0
  {
  }

  /** The cell before `pos` gets its value. */
  function Put(f: Frame, v: int): Frame {
    if 0 < f.pos <= |f.cells| then f.(cells := f.cells[f.pos - 1 := v]) else f
  }

  /** A value is handed to the evaluation that asked for it, or is a result of the thread. */
  function Deliver(t: Thread, rest: seq<Frame>, v: int): Thread {
    if rest == [] then t.(stack := [], results := t.results + [v])
    else t.(stack := rest[..|rest| - 1] + [Put(rest[|rest| - 1], v)])
  }

  function Borrow(defs: Definitions, t: Thread, stale: seq<int>): Thread
    requires t.wants.Some? && t.wants.value in defs
  {
    t.(wants := None, stack := t.stack + [Borrowed(defs, t.wants.value, stale)])
  }

  /** The next cell: a field is put there, a reference is waited for. */
  function Fill(defs: Definitions, t: Thread): Thread
    requires t.stack != [] && Top(t).id in defs && Top(t).pos < |defs[Top(t).id].index|
  {
    var f, rest := Top(t), t.stack[..|t.stack| - 1];
    var k, next := defs[f.id].index[f.pos], f.(pos := f.pos + 1);
    if k < 0 then t.(stack := rest + [next], wants := Some(-k)) else t.(stack := rest + [Put(next, t.rec(k))])
  }

  /** One step of a thread: start an evaluation, borrow the adaptor it waits for, fill a cell, or
      evaluate and give an adaptor back. None when it is done, or must wait because the pool is empty. */
  function Advance(defs: Definitions, t: Thread, free: map<int, nat>, stale: seq<int>): Option<(Thread, map<int, nat>)> {
    if t.wants.Some? then
      var k := t.wants.value;
      if k in defs && k in free && free[k] > 0 then Some((Borrow(defs, t, stale), free[k := free[k] - 1])) else None
    else if t.stack != [] then
      var f, rest := Top(t), t.stack[..|t.stack| - 1];
      if f.id !in defs || f.id !in free then None
      else if f.pos < |defs[f.id].index| then Some((Fill(defs, t), free))
      else Some((Deliver(t, rest, OrZero(Evaluate(defs[f.id].expr, f.cells))), free[f.id := free[f.id] + 1]))
    else if t.todo != [] then Some((t.(todo := t.todo[1..], wants := Some(t.todo[0])), free))
    else None
  }

  /** Thread `m.thread` moves. */
  function Step(defs: Definitions, s: State, m: Move): Option<State> {
    if m.thread >= |s.threads| then None
    else
      var r := Advance(defs, s.threads[m.thread], s.free, m.stale);
      if r.None? then None else Some(State(s.threads[m.thread := r.value.0], r.value.1))
  }

  /** A run: the threads move in the order of `schedule`. None when a chosen thread could not move. */
  function Execute(defs: Definitions, s: State, schedule: seq<Move>): Option<State> {
    if schedule == [] then Some(s)
    else
      var last := |schedule| - 1;
      var before := Execute(defs, s, schedule[..last]);
      if before.None? then None else Step(defs, before.value, schedule[last])
  }

  predicate Initial(defs: Definitions, cap: map<int, nat>, s: State) {
    && s.free == cap
    && forall i :: 0 <= i < |s.threads| ==>
         && s.threads[i].wants.None? && s.threads[i].stack == [] && s.threads[i].results == []
         && forall n :: 0 <= n < |s.threads[i].todo| ==> s.threads[i].todo[n] in defs
  }

  predicate Pools(defs: Definitions, rank: map<int, nat>, cap: map<int, nat>) {
    Acyclic(defs, rank) && cap.Keys == defs.Keys && forall k :: k in cap ==> cap[k] >= 1
  }

  /** One adaptor for each expression is enough. */
  lemma SmallestPools(defs: Definitions, rank: map<int, nat>)
    requires Acyclic(defs, rank)
    ensures Pools(defs, rank, map id | id in defs :: 1)
  {
  }

  // ---------------------------------------------------------------- sums over the threads

  function Sum(ts: seq<Thread>, f: Thread -> int): int {
    if ts == [] then 0 else Sum(ts[..|ts| - 1], f) + f(ts[|ts| - 1])
  }

  lemma {:induction false} SumUpdate(ts: seq<Thread>, f: Thread -> int, i: nat, t: Thread)
    requires i < |ts|
    ensures Sum(ts[i := t], f) == Sum(ts, f) - f(ts[i]) + f(t)
  {
    var last := |ts| - 1;
    if i < last {
      assert ts[i := t][..last] == ts[..last][i := t];
      SumUpdate(ts[..last], f, i, t);
    } else {
      assert ts[i := t][..last] == ts[..last];
    }
  }

  /** Where a sum of flags is positive, some flag is. */
  lemma {:induction false} SumWitness(ts: seq<Thread>, f: Thread -> int) returns (i: nat)
    requires Sum(ts, f) > 0
    ensures i < |ts| && f(ts[i]) > 0
  {
    if f(ts[|ts| - 1]) > 0 {
      i := |ts| - 1;
    } else {
      i := SumWitness(ts[..|ts| - 1], f);
    }
  }

  function Holds(t: Thread, k: int): int {
    if exists n :: 0 <= n < |t.stack| && t.stack[n].id == k then 1 else 0
  }

  /** How many threads hold an adaptor of `k`. */
  function Held(ts: seq<Thread>, k: int): int {
    Sum(ts, t => Holds(t, k))
  }

  // ---------------------------------------------------------------- the invariant

  /** A thread holds adaptors along a reference path, and waits only for a lower rank. */
  predicate OnPath(defs: Definitions, rank: map<int, nat>, t: Thread)
    requires defs.Keys <= rank.Keys
  {
    && (forall n :: 0 <= n < |t.todo| ==> t.todo[n] in defs)
    && (t.wants.Some? ==> t.wants.value in defs)
    && (forall n :: 0 <= n < |t.stack| ==> t.stack[n].id in defs && t.stack[n].pos <= |defs[t.stack[n].id].index|)
    && (forall m, n :: 0 <= m < n < |t.stack| ==> rank[t.stack[n].id] < rank[t.stack[m].id])
    && (t.wants.Some? ==> forall n :: 0 <= n < |t.stack| ==> rank[t.wants.value] < rank[t.stack[n].id])
  }

  predicate Invariant(defs: Definitions, rank: map<int, nat>, cap: map<int, nat>, s: State)
    requires defs.Keys <= rank.Keys
  {
    && s.free.Keys == defs.Keys == cap.Keys
    && (forall i :: 0 <= i < |s.threads| ==> OnPath(defs, rank, s.threads[i]))
    && forall k :: k in cap ==> s.free[k] + Held(s.threads, k) == cap[k]
  }

  /** A step keeps the path, and moves at most one adaptor, of the pool whose count changes. */
  lemma AdvanceKeeps(defs: Definitions, rank: map<int, nat>, t: Thread, free: map<int, nat>, stale: seq<int>)
    requires Acyclic(defs, rank) && OnPath(defs, rank, t) && free.Keys == defs.Keys && Advance(defs, t, free, stale).Some?
    ensures var (t', free') := Advance(defs, t, free, stale).value;
            && OnPath(defs, rank, t') && free'.Keys == free.Keys
            && forall k :: k in free ==> free'[k] + Holds(t', k) == free[k] + Holds(t, k)
  {
    if t.wants.Some? {
      BorrowKeeps(t, Borrowed(defs, t.wants.value, stale));
    } else if t.stack != [] {
      var f := Top(t);
      if f.pos < |defs[f.id].index| {
        FillKeeps(defs, rank, t);
      } else {
        var rest, v := t.stack[..|t.stack| - 1], OrZero(Evaluate(defs[f.id].expr, f.cells));
        DeliverShape(t, rest, v);
        ReturnKeeps(defs, rank, t, Deliver(t, rest, v));
      }
    } else {
      assert t.todo[0] in defs;
    }
  }

  lemma BorrowKeeps(t: Thread, f: Frame)
    ensures var t' := t.(wants := None, stack := t.stack + [f]);
            Holds(t', f.id) == 1 && forall j :: j != f.id ==> Holds(t', j) == Holds(t, j)
  {
    var t' := t.(wants := None, stack := t.stack + [f]);
    assert t'.stack[|t.stack|].id == f.id;
    forall j | j != f.id ensures Holds(t', j) == Holds(t, j) {
      if n :| 0 <= n < |t.stack| && t.stack[n].id == j {
        assert t'.stack[n].id == j;
      }
    }
  }

  lemma DeliverShape(t: Thread, rest: seq<Frame>, v: int)
    ensures var t' := Deliver(t, rest, v);
            && t'.todo == t.todo && t'.wants == t.wants && |t'.stack| == |rest|
            && forall n :: 0 <= n < |rest| ==> t'.stack[n].id == rest[n].id && t'.stack[n].pos == rest[n].pos
  {
  }

  lemma FillKeeps(defs: Definitions, rank: map<int, nat>, t: Thread)
    requires Acyclic(defs, rank) && OnPath(defs, rank, t) && t.wants.None? && t.stack != []
    requires Top(t).pos < |defs[Top(t).id].index|
    ensures OnPath(defs, rank, Fill(defs, t)) && forall k :: Holds(Fill(defs, t), k) == Holds(t, k)
  {
    var f, t' := Top(t), Fill(defs, t);
    assert RefersLower(defs, rank, f.id);
    var k := defs[f.id].index[f.pos];
    assert k < 0 ==> -k in defs && rank[-k] < rank[f.id];
    SameFrames(t, t');
  }

  lemma SameFrames(t: Thread, t': Thread)
    requires |t'.stack| == |t.stack| && forall n :: 0 <= n < |t.stack| ==> t'.stack[n].id == t.stack[n].id
    ensures forall k :: Holds(t', k) == Holds(t, k)
  {
  }

  lemma ReturnKeeps(defs: Definitions, rank: map<int, nat>, t: Thread, t': Thread)
    requires Acyclic(defs, rank) && OnPath(defs, rank, t) && t.stack != [] && |t'.stack| == |t.stack| - 1
    requires forall n :: 0 <= n < |t'.stack| ==> t'.stack[n].id == t.stack[n].id
    ensures Holds(t', Top(t).id) == 0 && Holds(t, Top(t).id) == 1
    ensures forall k :: k != Top(t).id ==> Holds(t', k) == Holds(t, k)
  {
    forall k | k != Top(t).id ensures Holds(t', k) == Holds(t, k) {
      if n :| 0 <= n < |t.stack| && t.stack[n].id == k {
        assert t'.stack[n].id == k;
      }
    }
  }

  lemma StepKeeps(defs: Definitions, rank: map<int, nat>, cap: map<int, nat>, s: State, m: Move)
    requires Acyclic(defs, rank) && Invariant(defs, rank, cap, s) && Step(defs, s, m).Some?
    ensures Invariant(defs, rank, cap, Step(defs, s, m).value)
  {
    var t, s' := s.threads[m.thread], Step(defs, s, m).value;
    AdvanceKeeps(defs, rank, t, s.free, m.stale);
    var t' := Advance(defs, t, s.free, m.stale).value.0;
    forall k | k in cap ensures s'.free[k] + Held(s'.threads, k) == cap[k] {
      SumUpdate(s.threads, x => Holds(x, k), m.thread, t');
    }
  }

  lemma {:induction false} SumZero(ts: seq<Thread>, f: Thread -> int)
    requires forall i :: 0 <= i < |ts| ==> f(ts[i]) == 0
    ensures Sum(ts, f) == 0
  {
    if ts != [] {
      SumZero(ts[..|ts| - 1], f);
    }
  }

  lemma InitialInvariant(defs: Definitions, rank: map<int, nat>, cap: map<int, nat>, s: State)
    requires Pools(defs, rank, cap) && Initial(defs, cap, s)
    ensures Invariant(defs, rank, cap, s)
  {
    forall k | k in cap ensures Held(s.threads, k) == 0 {
      SumZero(s.threads, t => Holds(t, k));
    }
  }

  /** In every reachable state every adaptor is either free or held, and threads hold along paths. */
  lemma {:induction false} ReachableInvariant(
    defs: Definitions, rank: map<int, nat>, cap: map<int, nat>, s: State, schedule: seq<Move>)
    requires Pools(defs, rank, cap) && Initial(defs, cap, s) && Execute(defs, s, schedule).Some?
    ensures Invariant(defs, rank, cap, Execute(defs, s, schedule).value)
  {
    if schedule == [] {
      InitialInvariant(defs, rank, cap, s);
    } else {
      var last := |schedule| - 1;
      ReachableInvariant(defs, rank, cap, s, schedule[..last]);
      StepKeeps(defs, rank, cap, Execute(defs, s, schedule[..last]).value, schedule[last]);
    }
  }

  // ---------------------------------------------------------------- no deadlock

  /** From a thread with work left, follow "waits for an adaptor held by" to one that can move: each
      hop goes to a strictly lower rank. */
  lemma {:induction false} SomeoneMoves(
    defs: Definitions, rank: map<int, nat>, cap: map<int, nat>, s: State, i: nat) returns (j: nat)
    requires Pools(defs, rank, cap) && Invariant(defs, rank, cap, s) && i < |s.threads| && !Done(s.threads[i])
    ensures j < |s.threads| && forall stale :: Advance(defs, s.threads[j], s.free, stale).Some?
    decreases s.threads[i].wants.Some?, if s.threads[i].wants.Some? then rank[s.threads[i].wants.value] else 0
  {
    var t := s.threads[i];
    assert OnPath(defs, rank, t);
    if t.wants.None? || s.free[t.wants.value] > 0 {
      return i;
    }
    var k := t.wants.value;
    assert s.free[k] + Held(s.threads, k) == cap[k];
    j := SumWitness(s.threads, x => Holds(x, k));
    HolderIsLower(defs, rank, s.threads[j], k);
    if s.threads[j].wants.Some? {
      j := SomeoneMoves(defs, rank, cap, s, j);
    }
  }

  /** A holder of `k` is not done, and waits, if at all, for something of lower rank. */
  lemma HolderIsLower(defs: Definitions, rank: map<int, nat>, t: Thread, k: int)
    requires Acyclic(defs, rank) && OnPath(defs, rank, t) && Holds(t, k) > 0 && k in defs
    ensures !Done(t) && (t.wants.Some? ==> rank[t.wants.value] < rank[k])
  {
    var n :| 0 <= n < |t.stack| && t.stack[n].id == k;
  }

  lemma EnabledMove(defs: Definitions, s: State, schedule: seq<Move>, m: Move)
    requires Execute(defs, s, schedule).Some?
    requires var now := Execute(defs, s, schedule).value;
             m.thread < |now.threads| && Advance(defs, now.threads[m.thread], now.free, m.stale).Some?
    ensures Execute(defs, s, schedule + [m]).Some?
  {
    assert (schedule + [m])[..|schedule|] == schedule;
  }

  /** Thread `j` can move next, whatever an adaptor it borrows holds. */
  ghost predicate CanMove(defs: Definitions, s: State, schedule: seq<Move>, j: nat) {
    forall stale :: Execute(defs, s, schedule + [Move(j, stale)]).Some?
  }

  /** Deadlock freedom: in every reachable state with unfinished work some thread can move, for any
      number of threads and any pools of at least one adaptor. */
  lemma DeadlockFree(
    defs: Definitions, rank: map<int, nat>, cap: map<int, nat>, s: State, schedule: seq<Move>, i: nat)
    requires Pools(defs, rank, cap) && Initial(defs, cap, s) && Execute(defs, s, schedule).Some?
    requires i < |Execute(defs, s, schedule).value.threads| && !Done(Execute(defs, s, schedule).value.threads[i])
    ensures exists j: nat :: CanMove(defs, s, schedule, j)
  {
    var now := Execute(defs, s, schedule).value;
    ReachableInvariant(defs, rank, cap, s, schedule);
    var j := SomeoneMoves(defs, rank, cap, now, i);
    forall stale ensures Execute(defs, s, schedule + [Move(j, stale)]).Some? {
      EnabledMove(defs, s, schedule, Move(j, stale));
    }
    assert CanMove(defs, s, schedule, j);
  }

  // ---------------------------------------------------------------- every run ends

  /** Steps one evaluation of `id` takes: borrowing, and everything after. */
  function CallCost(defs: Definitions, rank: map<int, nat>, id: int): nat
    requires Acyclic(defs, rank) && id in defs
    decreases rank[id], |defs[id].index| + 1
  {
    1 + RestCost(defs, rank, id, 0)
  }

  /** Steps left once `pos` cells are filled: the other cells, with what they refer to, and the return. */
  function RestCost(defs: Definitions, rank: map<int, nat>, id: int, pos: nat): (n: nat)
    requires Acyclic(defs, rank) && id in defs && pos <= |defs[id].index|
    decreases rank[id], |defs[id].index| - pos
  {
    if pos == |defs[id].index| then 1
    else
      assert RefersLower(defs, rank, id);
      var k := defs[id].index[pos];
      1 + (if k < 0 then CallCost(defs, rank, -k) else 0) + RestCost(defs, rank, id, pos + 1)
  }

  function TodoCost(defs: Definitions, rank: map<int, nat>, todo: seq<int>): nat
    requires Acyclic(defs, rank) && forall n :: 0 <= n < |todo| ==> todo[n] in defs
  {
    if todo == [] then 0 else 1 + CallCost(defs, rank, todo[0]) + TodoCost(defs, rank, todo[1..])
  }

  function StackCost(defs: Definitions, rank: map<int, nat>, stack: seq<Frame>): nat
    requires Acyclic(defs, rank)
    requires forall n :: 0 <= n < |stack| ==> stack[n].id in defs && stack[n].pos <= |defs[stack[n].id].index|
  {
    if stack == [] then 0
    else
      var f := stack[|stack| - 1];
      StackCost(defs, rank, stack[..|stack| - 1]) + RestCost(defs, rank, f.id, f.pos)
  }

  /** The steps a thread still has to make. */
  function Work(defs: Definitions, rank: map<int, nat>, t: Thread): nat
    requires Acyclic(defs, rank) && OnPath(defs, rank, t)
  {
    TodoCost(defs, rank, t.todo) + StackCost(defs, rank, t.stack) +
    if t.wants.Some? then CallCost(defs, rank, t.wants.value) else 0
  }

  function WorkOrZero(defs: Definitions, rank: map<int, nat>, t: Thread): int
    requires Acyclic(defs, rank)
  {
    if OnPath(defs, rank, t) then Work(defs, rank, t) else 0
  }

  function Total(defs: Definitions, rank: map<int, nat>, s: State): int
    requires Acyclic(defs, rank)
  {
    Sum(s.threads, t => WorkOrZero(defs, rank, t))
  }

  /** Every step of a thread uses up exactly one unit of its work. */
  lemma AdvanceWorks(defs: Definitions, rank: map<int, nat>, t: Thread, free: map<int, nat>, stale: seq<int>)
    requires Acyclic(defs, rank) && OnPath(defs, rank, t) && free.Keys == defs.Keys && Advance(defs, t, free, stale).Some?
    ensures OnPath(defs, rank, Advance(defs, t, free, stale).value.0)
    ensures Work(defs, rank, Advance(defs, t, free, stale).value.0) == Work(defs, rank, t) - 1
  {
    AdvanceKeeps(defs, rank, t, free, stale);
    var t' := Advance(defs, t, free, stale).value.0;
    if t.wants.Some? {
      PushCost(defs, rank, t.stack, Borrowed(defs, t.wants.value, stale));
    } else if t.stack != [] {
      TopWorks(defs, rank, t, t', free, stale);
    }
  }

  lemma TopWorks(defs: Definitions, rank: map<int, nat>, t: Thread, t': Thread, free: map<int, nat>, stale: seq<int>)
    requires Acyclic(defs, rank) && OnPath(defs, rank, t) && OnPath(defs, rank, t') && t.wants.None? && t.stack != []
    requires var r := Advance(defs, t, free, stale); r.Some? && r.value.0 == t'
    ensures Work(defs, rank, t') == Work(defs, rank, t) - 1
  {
    var f, rest := Top(t), t.stack[..|t.stack| - 1];
    if f.pos < |defs[f.id].index| {
      FillCost(defs, rank, t);
    } else {
      DeliverCost(defs, rank, t, rest, OrZero(Evaluate(defs[f.id].expr, f.cells)));
      assert StackCost(defs, rank, t.stack) == StackCost(defs, rank, rest) + 1;
    }
  }

  lemma FillCost(defs: Definitions, rank: map<int, nat>, t: Thread)
    requires Acyclic(defs, rank) && OnPath(defs, rank, t) && t.wants.None? && t.stack != []
    requires Top(t).pos < |defs[Top(t).id].index| && OnPath(defs, rank, Fill(defs, t))
    ensures Work(defs, rank, Fill(defs, t)) == Work(defs, rank, t) - 1
  {
    var f := Top(t);
    var k, t' := defs[f.id].index[f.pos], Fill(defs, t);
    NextCost(defs, rank, f.id, f.pos);
    FillStackCost(defs, rank, t.stack[..|t.stack| - 1], f, Top(t'), t.stack, t'.stack);
    assert t'.todo == t.todo && t'.wants == if k < 0 then Some(-k) else None;
  }

  lemma FillStackCost(defs: Definitions, rank: map<int, nat>, rest: seq<Frame>, f: Frame, f': Frame,
                      before: seq<Frame>, after: seq<Frame>)
    requires Acyclic(defs, rank) && before == rest + [f] && after == rest + [f'] && f.id == f'.id && f.id in defs
    requires f.pos <= |defs[f.id].index| && f'.pos <= |defs[f.id].index|
    requires forall n :: 0 <= n < |rest| ==> rest[n].id in defs && rest[n].pos <= |defs[rest[n].id].index|
    ensures forall n :: 0 <= n < |before| ==> before[n].id in defs && before[n].pos <= |defs[before[n].id].index|
    ensures forall n :: 0 <= n < |after| ==> after[n].id in defs && after[n].pos <= |defs[after[n].id].index|
    ensures StackCost(defs, rank, before) - StackCost(defs, rank, after) ==
            RestCost(defs, rank, f.id, f.pos) - RestCost(defs, rank, f.id, f'.pos)
  {
    PushCost(defs, rank, rest, f);
    PushCost(defs, rank, rest, f');
  }

  lemma DeliverCost(defs: Definitions, rank: map<int, nat>, t: Thread, rest: seq<Frame>, v: int)
    requires Acyclic(defs, rank)
    requires forall n :: 0 <= n < |rest| ==> rest[n].id in defs && rest[n].pos <= |defs[rest[n].id].index|
    ensures var t' := Deliver(t, rest, v);
            && t'.todo == t.todo && t'.wants == t.wants && |t'.stack| == |rest|
            && (forall n :: 0 <= n < |rest| ==> t'.stack[n].id == rest[n].id && t'.stack[n].pos == rest[n].pos)
            && StackCost(defs, rank, t'.stack) == StackCost(defs, rank, rest)
  {
    DeliverShape(t, rest, v);
    if rest != [] {
      SameCost(defs, rank, rest, Deliver(t, rest, v).stack);
    }
  }

  /** The cells have no influence on the steps to come. */
  lemma SameCost(defs: Definitions, rank: map<int, nat>, a: seq<Frame>, b: seq<Frame>)
    requires Acyclic(defs, rank) && a != [] && |a| == |b| && a[..|a| - 1] == b[..|a| - 1]
    requires a[|a| - 1].id == b[|a| - 1].id && a[|a| - 1].pos == b[|a| - 1].pos
    requires forall n :: 0 <= n < |a| ==> a[n].id in defs && a[n].pos <= |defs[a[n].id].index|
    requires forall n :: 0 <= n < |b| ==> b[n].id in defs && b[n].pos <= |defs[b[n].id].index|
    ensures StackCost(defs, rank, a) == StackCost(defs, rank, b)
  {
  }

  lemma NextCost(defs: Definitions, rank: map<int, nat>, id: int, pos: nat)
    requires Acyclic(defs, rank) && id in defs && pos < |defs[id].index|
    ensures var k := defs[id].index[pos];
            && (k < 0 ==> -k in defs)
            && RestCost(defs, rank, id, pos) ==
               1 + (if k < 0 then CallCost(defs, rank, -k) else 0) + RestCost(defs, rank, id, pos + 1)
  {
    assert RefersLower(defs, rank, id);
  }

  lemma PushCost(defs: Definitions, rank: map<int, nat>, stack: seq<Frame>, f: Frame)
    requires Acyclic(defs, rank) && f.id in defs && f.pos <= |defs[f.id].index|
    requires forall n :: 0 <= n < |stack| ==> stack[n].id in defs && stack[n].pos <= |defs[stack[n].id].index|
    ensures StackCost(defs, rank, stack + [f]) == StackCost(defs, rank, stack) + RestCost(defs, rank, f.id, f.pos)
  {
    assert (stack + [f])[..|stack|] == stack;
  }

  /** However the threads are scheduled, a run makes as many steps as work is used up, so no run is
      longer than the work there was; and when none is left every adaptor is back in its pool. */
  lemma {:induction false} RunsAreBounded(
    defs: Definitions, rank: map<int, nat>, cap: map<int, nat>, s: State, schedule: seq<Move>)
    requires Pools(defs, rank, cap) && Initial(defs, cap, s) && Execute(defs, s, schedule).Some?
    ensures Total(defs, rank, Execute(defs, s, schedule).value) == Total(defs, rank, s) - |schedule|
    ensures |schedule| <= Total(defs, rank, s)
  {
    var now := Execute(defs, s, schedule).value;
    NotNegative(now.threads, t => WorkOrZero(defs, rank, t));
    if schedule != [] {
      var last := |schedule| - 1;
      var before := Execute(defs, s, schedule[..last]).value;
      RunsAreBounded(defs, rank, cap, s, schedule[..last]);
      ReachableInvariant(defs, rank, cap, s, schedule[..last]);
      var m := schedule[last];
      var t := before.threads[m.thread];
      AdvanceWorks(defs, rank, t, before.free, m.stale);
      SumUpdate(before.threads, x => WorkOrZero(defs, rank, x), m.thread, Advance(defs, t, before.free, m.stale).value.0);
    }
  }

  /** From every start some schedule brings all threads to their end, and it is as long as the work. */
  lemma AllCanFinish(defs: Definitions, rank: map<int, nat>, cap: map<int, nat>, s: State) returns (schedule: seq<Move>)
    requires Pools(defs, rank, cap) && Initial(defs, cap, s)
    ensures |schedule| == Total(defs, rank, s)
    ensures var end := Execute(defs, s, schedule);
            end.Some? && |end.value.threads| == |s.threads| && forall i :: 0 <= i < |s.threads| ==> Done(end.value.threads[i])
  {
    schedule := CanFinish(defs, rank, cap, s, []);
  }

  /** Every run can go on until all threads are done. */
  lemma {:induction false} CanFinish(
    defs: Definitions, rank: map<int, nat>, cap: map<int, nat>, s: State, schedule: seq<Move>) returns (full: seq<Move>)
    requires Pools(defs, rank, cap) && Initial(defs, cap, s) && Execute(defs, s, schedule).Some?
    ensures schedule <= full && |full| == Total(defs, rank, s)
    ensures var end := Execute(defs, s, full);
            end.Some? && |end.value.threads| == |s.threads| && forall i :: 0 <= i < |s.threads| ==> Done(end.value.threads[i])
    decreases Total(defs, rank, s) - |schedule|
  {
    var now := Execute(defs, s, schedule).value;
    SameThreads(defs, s, schedule);
    RunsAreBounded(defs, rank, cap, s, schedule);
    if i: nat :| i < |now.threads| && !Done(now.threads[i]) {
      DeadlockFree(defs, rank, cap, s, schedule, i);
      var j: nat :| CanMove(defs, s, schedule, j);
      var next := schedule + [Move(j, [])];
      assert Execute(defs, s, next).Some?;
      RunsAreBounded(defs, rank, cap, s, next);
      full := CanFinish(defs, rank, cap, s, next);
      assert schedule <= next <= full;
    } else {
      full := schedule;
      SumZero(now.threads, t => WorkOrZero(defs, rank, t));
    }
  }

  lemma {:induction false} SameThreads(defs: Definitions, s: State, schedule: seq<Move>)
    requires Execute(defs, s, schedule).Some?
    ensures |Execute(defs, s, schedule).value.threads| == |s.threads|
  {
    if schedule != [] {
      SameThreads(defs, s, schedule[..|schedule| - 1]);
    }
  }

  /** Any threads with any records and any evaluations of existing expressions may start. */
  lemma AnyStart(defs: Definitions, cap: map<int, nat>, recs: seq<Record>, jobs: seq<seq<int>>)
    requires |recs| == |jobs| && forall i, n :: 0 <= i < |jobs| && 0 <= n < |jobs[i]| ==> jobs[i][n] in defs
    ensures Initial(defs, cap, State(
              seq(|recs|, i requires 0 <= i < |recs| => Thread(recs[i], jobs[i], None, [], [])), cap))
  {
  }

  lemma {:induction false} NotNegative(ts: seq<Thread>, f: Thread -> int)
    requires forall t :: f(t) >= 0
    ensures Sum(ts, f) >= 0
  {
    if ts != [] {
      NotNegative(ts[..|ts| - 1], f);
    }
  }

  lemma AllReturned(defs: Definitions, rank: map<int, nat>, cap: map<int, nat>, s: State, schedule: seq<Move>)
    requires Pools(defs, rank, cap) && Initial(defs, cap, s) && Execute(defs, s, schedule).Some?
    requires var now := Execute(defs, s, schedule).value;
             forall i :: 0 <= i < |now.threads| ==> Done(now.threads[i])
    ensures Execute(defs, s, schedule).value.free == cap
  {
    var now := Execute(defs, s, schedule).value;
    ReachableInvariant(defs, rank, cap, s, schedule);
    forall k | k in cap ensures now.free[k] == cap[k] {
      SumZero(now.threads, t => Holds(t, k));
    }
  }
}
