/** What concurrent evaluations compute: the values of the expressions, however the threads are
    scheduled and whatever the borrowed adaptors held. */
module PoolResults {
  import opened CText
  import opened Conditions
  import opened PoolThreads

  /** What evaluation `n` on the stack is waiting for. */
  function Awaited(t: Thread, n: nat): Option<int>
    requires n < |t.stack|
  {
    if n + 1 < |t.stack| then Some(t.stack[n + 1].id) else t.wants
  }

  /** An evaluation in progress: the cells it has filled hold what the expression's variables stand
      for; the last of them may still be awaited. */
  ghost predicate InProgress(defs: Definitions, rank: map<int, nat>, rec: Record, f: Frame, awaited: Option<int>)
    requires Acyclic(defs, rank)
  {
    && f.id in defs && f.pos <= |f.cells| == |defs[f.id].index|
    && (awaited.None? ==> f.cells[..f.pos] == Cells(defs, rank, f.id, rec, f.pos))
    && (awaited.Some? ==>
          && f.pos > 0 && f.cells[..f.pos - 1] == Cells(defs, rank, f.id, rec, f.pos - 1)
          && defs[f.id].index[f.pos - 1] < 0 && defs[f.id].index[f.pos - 1] == -awaited.value)
  }

  /** The evaluation the thread is at, if any. */
  function Current(t: Thread): seq<int> {
    if t.stack != [] then [t.stack[0].id] else if t.wants.Some? then [t.wants.value] else []
  }

  /** The thread has computed the values of the first of its `jobs`, is at the next, and has the rest to do. */
  ghost predicate Computes(defs: Definitions, rank: map<int, nat>, rec: Record, jobs: seq<int>, t: Thread)
    requires Acyclic(defs, rank)
  {
    && t.rec == rec && |t.results| <= |jobs| && jobs[|t.results|..] == Current(t) + t.todo
    && (forall i :: 0 <= i < |t.results| ==> jobs[i] in defs && t.results[i] == Worth(defs, rank, jobs[i], rec))
    && forall n :: 0 <= n < |t.stack| ==> InProgress(defs, rank, rec, t.stack[n], Awaited(t, n))
  }

  lemma PutKeeps(defs: Definitions, rank: map<int, nat>, rec: Record, f: Frame, v: int)
    requires Acyclic(defs, rank) && f.id in defs && 0 < f.pos <= |f.cells| == |defs[f.id].index|
    requires f.cells[..f.pos - 1] == Cells(defs, rank, f.id, rec, f.pos - 1)
    requires var k := defs[f.id].index[f.pos - 1];
             if k < 0 then -k in defs && v == Worth(defs, rank, -k, rec) else v == rec(k)
    ensures InProgress(defs, rank, rec, Put(f, v), None)
  {
    CellsNext(defs, rank, f.id, rec, f.pos - 1);
    assert f.cells[f.pos - 1 := v][..f.pos] == f.cells[..f.pos - 1] + [v];
  }

  lemma BorrowComputes(defs: Definitions, rank: map<int, nat>, rec: Record, jobs: seq<int>, t: Thread, stale: seq<int>)
    requires Acyclic(defs, rank) && Computes(defs, rank, rec, jobs, t) && t.wants.Some? && t.wants.value in defs
    ensures Computes(defs, rank, rec, jobs, Borrow(defs, t, stale))
  {
    var f, t' := Borrowed(defs, t.wants.value, stale), Borrow(defs, t, stale);
    assert f.cells[..0] == [];
    forall n | 0 <= n < |t'.stack| ensures InProgress(defs, rank, rec, t'.stack[n], Awaited(t', n)) {
      if n < |t.stack| {
        assert t'.stack[n] == t.stack[n] && Awaited(t', n) == Awaited(t, n);
      }
    }
  }

  /** Only the top of the stack changes, and what it waits for. */
  lemma TopChanges(defs: Definitions, rank: map<int, nat>, rec: Record, jobs: seq<int>, t: Thread, top: Frame, wants: Option<int>)
    requires Acyclic(defs, rank) && Computes(defs, rank, rec, jobs, t) && t.stack != [] && top.id == Top(t).id
    requires InProgress(defs, rank, rec, top, wants)
    ensures Computes(defs, rank, rec, jobs, t.(stack := t.stack[..|t.stack| - 1] + [top], wants := wants))
  {
    var t' := t.(stack := t.stack[..|t.stack| - 1] + [top], wants := wants);
    forall n | 0 <= n < |t'.stack| ensures InProgress(defs, rank, rec, t'.stack[n], Awaited(t', n)) {
      if n + 1 < |t.stack| {
        assert t'.stack[n] == t.stack[n] && Awaited(t', n) == Awaited(t, n);
      }
    }
  }

  lemma FillComputes(defs: Definitions, rank: map<int, nat>, rec: Record, jobs: seq<int>, t: Thread)
    requires Acyclic(defs, rank) && Computes(defs, rank, rec, jobs, t) && t.wants.None? && t.stack != []
    requires Top(t).id in defs && Top(t).pos < |defs[Top(t).id].index|
    ensures Computes(defs, rank, rec, jobs, Fill(defs, t))
  {
    var f, n := Top(t), |t.stack| - 1;
    assert InProgress(defs, rank, rec, f, Awaited(t, n));
    var k, next := defs[f.id].index[f.pos], f.(pos := f.pos + 1);
    if k < 0 {
      assert InProgress(defs, rank, rec, next, Some(-k));
      TopChanges(defs, rank, rec, jobs, t, next, Some(-k));
    } else {
      PutKeeps(defs, rank, rec, next, rec(k));
      TopChanges(defs, rank, rec, jobs, t, Put(next, rec(k)), None);
    }
  }

  /** A finished evaluation has the expression's value. */
  lemma ValueIsWorth(defs: Definitions, rank: map<int, nat>, rec: Record, f: Frame)
    requires Acyclic(defs, rank) && InProgress(defs, rank, rec, f, None) && f.pos == |defs[f.id].index|
    ensures OrZero(Evaluate(defs[f.id].expr, f.cells)) == Worth(defs, rank, f.id, rec)
  {
    assert f.cells[..f.pos] == f.cells;
  }

  lemma DeliverComputes(
    defs: Definitions, rank: map<int, nat>, rec: Record, jobs: seq<int>, t: Thread, rest: seq<Frame>, v: int)
    requires Acyclic(defs, rank) && Computes(defs, rank, rec, jobs, t) && t.wants.None? && t.stack != [] && rest == t.stack[..|t.stack| - 1]
    requires Top(t).id in defs && v == Worth(defs, rank, Top(t).id, rec)
    ensures Computes(defs, rank, rec, jobs, Deliver(t, rest, v))
  {
    if rest == [] {
      ResultComputes(defs, rank, rec, jobs, t, v);
    } else {
      var n := |rest| - 1;
      var below := rest[n];
      assert below == t.stack[n] && t.stack[n + 1] == Top(t);
      assert InProgress(defs, rank, rec, below, Awaited(t, n));
      PutKeeps(defs, rank, rec, below, v);
      assert rest[..n] == t.stack[..n];
      CallerComputes(defs, rank, rec, jobs, t, Put(below, v));
    }
  }

  /** The outermost evaluation ends: its value is the next result. */
  lemma ResultComputes(defs: Definitions, rank: map<int, nat>, rec: Record, jobs: seq<int>, t: Thread, v: int)
    requires Acyclic(defs, rank) && Computes(defs, rank, rec, jobs, t) && t.wants.None? && |t.stack| == 1
    requires t.stack[0].id in defs && v == Worth(defs, rank, t.stack[0].id, rec)
    ensures Computes(defs, rank, rec, jobs, t.(stack := [], results := t.results + [v]))
  {
    var r := |t.results|;
    assert jobs[r..] == [t.stack[0].id] + t.todo;
    assert jobs[r] == jobs[r..][0] && jobs[r + 1..] == jobs[r..][1..];
  }

  /** An inner evaluation ends: its caller gets the value. */
  lemma CallerComputes(defs: Definitions, rank: map<int, nat>, rec: Record, jobs: seq<int>, t: Thread, caller: Frame)
    requires Acyclic(defs, rank) && Computes(defs, rank, rec, jobs, t) && t.wants.None? && |t.stack| > 1
    requires caller.id == t.stack[|t.stack| - 2].id && InProgress(defs, rank, rec, caller, None)
    ensures Computes(defs, rank, rec, jobs, t.(stack := t.stack[..|t.stack| - 2] + [caller]))
  {
    var t' := t.(stack := t.stack[..|t.stack| - 2] + [caller]);
    forall n | 0 <= n < |t'.stack| ensures InProgress(defs, rank, rec, t'.stack[n], Awaited(t', n)) {
      if n + 1 < |t'.stack| {
        assert t'.stack[n] == t.stack[n] && Awaited(t', n) == Awaited(t, n);
      }
    }
  }

  lemma AdvanceComputes(
    defs: Definitions, rank: map<int, nat>, rec: Record, jobs: seq<int>, t: Thread, free: map<int, nat>, stale: seq<int>)
    requires Acyclic(defs, rank) && Computes(defs, rank, rec, jobs, t) && Advance(defs, t, free, stale).Some?
    ensures Computes(defs, rank, rec, jobs, Advance(defs, t, free, stale).value.0)
  {
    if t.wants.Some? {
      BorrowComputes(defs, rank, rec, jobs, t, stale);
    } else if t.stack != [] {
      var f, rest := Top(t), t.stack[..|t.stack| - 1];
      assert InProgress(defs, rank, rec, f, Awaited(t, |t.stack| - 1));
      if f.pos < |defs[f.id].index| {
        FillComputes(defs, rank, rec, jobs, t);
      } else {
        ValueIsWorth(defs, rank, rec, f);
        DeliverComputes(defs, rank, rec, jobs, t, rest, Worth(defs, rank, f.id, rec));
      }
    } else {
      assert [t.todo[0]] + t.todo[1..] == t.todo;
    }
  }

  /** In every reachable state, under every schedule and whatever the adaptors held, each thread has
      computed the values of its first evaluations, in order, and still has exactly the others to do. */
  lemma {:induction false} EveryResultIsWorth(
    defs: Definitions, rank: map<int, nat>, cap: map<int, nat>, s: State, schedule: seq<Move>, i: nat)
    requires Pools(defs, rank, cap) && Initial(defs, cap, s) && Execute(defs, s, schedule).Some? && i < |s.threads|
    ensures var now := Execute(defs, s, schedule).value;
            |now.threads| == |s.threads| && Computes(defs, rank, s.threads[i].rec, s.threads[i].todo, now.threads[i])
  {
    if schedule == [] {
      var t := s.threads[i];
      assert t.todo[0..] == [] + t.todo;
    } else {
      var last := |schedule| - 1;
      var before, m := Execute(defs, s, schedule[..last]).value, schedule[last];
      EveryResultIsWorth(defs, rank, cap, s, schedule[..last], i);
      if m.thread == i {
        AdvanceComputes(defs, rank, s.threads[i].rec, s.threads[i].todo, before.threads[i], before.free, m.stale);
      }
    }
  }

  /** A thread that is done has the value of every evaluation it was given. */
  lemma DoneHasAllResults(
    defs: Definitions, rank: map<int, nat>, cap: map<int, nat>, s: State, schedule: seq<Move>, i: nat)
    requires Pools(defs, rank, cap) && Initial(defs, cap, s) && Execute(defs, s, schedule).Some? && i < |s.threads|
    requires var now := Execute(defs, s, schedule).value; i < |now.threads| && Done(now.threads[i])
    ensures var results, todo := Execute(defs, s, schedule).value.threads[i].results, s.threads[i].todo;
            |results| == |todo| && forall n :: 0 <= n < |todo| ==>
              todo[n] in defs && results[n] == Worth(defs, rank, todo[n], s.threads[i].rec)
  {
    EveryResultIsWorth(defs, rank, cap, s, schedule, i);
    var t := Execute(defs, s, schedule).value.threads[i];
    assert s.threads[i].todo[|t.results|..] == [];
  }
}
