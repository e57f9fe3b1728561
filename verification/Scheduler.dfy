/** The periodic scheduler: rounds that run what is due, drop one-shots on the way, and jump to
    the next wake time; compared with a scheduler that looks at every tick. */
module Scheduler {

  /** A registered task: run once at the start (interval -1) or every `interval` ticks. */
  datatype Task = Task(id: nat, interval: int)

  /** func_info: a task and the time it is next due. */
  datatype FuncInfo = FuncInfo(task: Task, magic: int)

  datatype Call = Call(time: int, id: nat)

  predicate Allowed(ts: seq<Task>) {
    forall i :: 0 <= i < |ts| ==> ts[i].interval == -1 || ts[i].interval > 0
  }

  // ---------------------------------------------------------------- the naive scheduler

  predicate Due(t: Task, tick: nat) {
    if t.interval == -1 then tick == 0 else t.interval > 0 && tick % t.interval == 0
  }

  /** One tick: every due task, in the order of registration. */
  function Tick(ts: seq<Task>, tick: nat): seq<Call> {
    if ts == [] then []
    else
      var t := ts[|ts| - 1];
      Tick(ts[..|ts| - 1], tick) + if Due(t, tick) then [Call(tick, t.id)] else []
  }

  /** All the ticks before `end`. */
  function Ticks(ts: seq<Task>, end: nat): seq<Call> {
    if end == 0 then [] else Ticks(ts, end - 1) + Tick(ts, end - 1)
  }

  /** For example a one-shot and two periodic tasks, up to tick 3, in the order of registration. */
  lemma SomeTicks()
    ensures var ts := [Task(1, -1), Task(2, 1), Task(3, 2)];
            && Allowed(ts) && Distinct(ts)
            && Ticks(ts, 4) == [Call(0, 1), Call(0, 2), Call(0, 3), Call(1, 2), Call(2, 2), Call(2, 3), Call(3, 2)]
  {
    var a, b, c := Task(1, -1), Task(2, 1), Task(3, 2);
    ThreeTasks(a, b, c, 0);
    ThreeTasks(a, b, c, 1);
    ThreeTasks(a, b, c, 2);
    ThreeTasks(a, b, c, 3);
    var ts := [a, b, c];
    assert Ticks(ts, 1) == [Call(0, 1), Call(0, 2), Call(0, 3)];
    assert Ticks(ts, 2) == Ticks(ts, 1) + [Call(1, 2)];
    assert Ticks(ts, 3) == Ticks(ts, 2) + [Call(2, 2), Call(2, 3)];
    assert Ticks(ts, 4) == Ticks(ts, 3) + [Call(3, 2)];
  }

  lemma ThreeTasks(a: Task, b: Task, c: Task, tick: nat)
    ensures Tick([a, b, c], tick) == (if Due(a, tick) then [Call(tick, a.id)] else []) +
              (if Due(b, tick) then [Call(tick, b.id)] else []) + (if Due(c, tick) then [Call(tick, c.id)] else [])
  {
    assert [a, b, c][..2] == [a, b] && [a, b][..1] == [a] && [a][..0] == [];
    assert Tick([a], tick) == if Due(a, tick) then [Call(tick, a.id)] else [];
    assert Tick([a, b], tick) == Tick([a], tick) + if Due(b, tick) then [Call(tick, b.id)] else [];
  }

  // ---------------------------------------------------------------- due times

  lemma {:induction false} AtLeastOnce(d: int, k: nat)
    ensures d >= 1 ==> d * k >= k
    ensures d <= -1 ==> d * k + k <= 0
    decreases if d < 0 then -d else d
  {
    if d > 1 {
      AtLeastOnce(d - 1, k);
      assert d * k == (d - 1) * k + k;
    } else if d < -1 {
      AtLeastOnce(d + 1, k);
      assert d * k == (d + 1) * k - k;
    }
  }

  lemma DivUnique(a: int, k: int, q: int, r: int)
    requires k > 0 && a == q * k + r && 0 <= r < k
    ensures a / k == q && a % k == r
  {
    var d := a / k - q;
    assert d * k == r - a % k by { assert a == a / k * k + a % k; }
    AtLeastOnce(d, k);
  }

  /** The least multiple of `k` that is not before `time`. */
  function Wake(k: int, time: nat): nat
    requires k > 0
  {
    if time % k == 0 then time else time + k - time % k
  }

  lemma WakeIsMultiple(k: int, time: nat)
    requires k > 0
    ensures Wake(k, time) % k == 0 && time <= Wake(k, time) < time + k
  {
    var q := time / k;
    assert time == q * k + time % k && (q + 1) * k == q * k + k;
    if time % k != 0 {
      DivUnique(Wake(k, time), k, q + 1, 0);
    }
  }

  lemma WakeIsLeast(k: int, time: nat, m: nat)
    requires k > 0 && time <= m && m % k == 0
    ensures Wake(k, time) <= m
  {
    var q := time / k;
    assert time == q * k + time % k;
    if m < Wake(k, time) {
      DivUnique(m, k, q, time % k + m - time);
    }
  }

  /** Until the due time is reached it does not move. */
  lemma WakeStable(k: int, time: nat, later: nat)
    requires k > 0 && time <= later <= Wake(k, time)
    ensures Wake(k, later) == Wake(k, time)
  {
    WakeIsMultiple(k, time);
    WakeIsMultiple(k, later);
    WakeIsLeast(k, later, Wake(k, time));
    WakeIsLeast(k, time, Wake(k, later));
  }

  /** After a run the next due time is one interval on. */
  lemma WakeAfterRun(k: int, time: nat)
    requires k > 0 && time % k == 0
    ensures Wake(k, time + 1) == time + k
  {
    assert time == time / k * k;
    if k > 1 {
      DivUnique(time + 1, k, time / k, 1);
    } else {
      DivUnique(time + 1, k, time + 1, 0);
    }
  }

  // ---------------------------------------------------------------- what a round starts from

  /** The tasks still to run at or after `time`, with their due times; one-shots only at 0. */
  function Waiting(ts: seq<Task>, time: nat): seq<FuncInfo>
    requires Allowed(ts)
  {
    if ts == [] then []
    else Waiting(ts[..|ts| - 1], time) + WaitingOne(ts[|ts| - 1], time)
  }

  function WaitingOne(t: Task, time: nat): seq<FuncInfo> {
    if t.interval > 0 then [FuncInfo(t, Wake(t.interval, time))]
    else if time == 0 then [FuncInfo(t, 0)]
    else []
  }

  predicate Periodic(ts: seq<Task>) {
    exists i :: 0 <= i < |ts| && ts[i].interval > 0
  }

  /** What one pass over the list leaves, and what it calls, element by element. */
  function After(infos: seq<FuncInfo>, time: int): seq<FuncInfo> {
    if infos == [] then []
    else After(infos[..|infos| - 1], time) + AfterOne(infos[|infos| - 1], time)
  }

  function AfterOne(x: FuncInfo, time: int): seq<FuncInfo> {
    if x.magic != time then [x]
    else if x.task.interval == -1 then []
    else [x.(magic := x.magic + x.task.interval)]
  }

  function Calls(infos: seq<FuncInfo>, time: int): seq<Call> {
    if infos == [] then []
    else
      var x := infos[|infos| - 1];
      Calls(infos[..|infos| - 1], time) + if x.magic == time then [Call(time, x.task.id)] else []
  }

  /** The smallest due time, 0 standing for none yet. */
  function MinMagic(infos: seq<FuncInfo>): int {
    if infos == [] then 0 else Earlier(MinMagic(infos[..|infos| - 1]), infos[|infos| - 1].magic)
  }

  function Earlier(min: int, magic: int): int {
    if min == 0 || min > magic then magic else min
  }

  lemma {:induction false} AfterAppend(a: seq<FuncInfo>, b: seq<FuncInfo>, time: int)
    requires |b| <= 1
    ensures After(a + b, time) == After(a, time) + if b == [] then [] else AfterOne(b[0], time)
    ensures Calls(a + b, time) == Calls(a, time) +
            if b != [] && b[0].magic == time then [Call(time, b[0].task.id)] else []
  {
    if b == [] {
      assert a + b == a;
    } else {
      assert (a + b)[..|a|] == a;
    }
  }

  /** One pass calls what the naive scheduler calls at this tick, and sets the list up for the next. */
  lemma {:induction false} PassIsTick(ts: seq<Task>, time: nat)
    requires Allowed(ts)
    ensures After(Waiting(ts, time), time) == Waiting(ts, time + 1)
    ensures Calls(Waiting(ts, time), time) == Tick(ts, time)
  {
    if ts != [] {
      var t := ts[|ts| - 1];
      PassIsTick(ts[..|ts| - 1], time);
      AfterAppend(Waiting(ts[..|ts| - 1], time), WaitingOne(t, time), time);
      OneTask(t, time);
    }
  }

  lemma OneTask(t: Task, time: nat)
    requires t.interval == -1 || t.interval > 0
    ensures var w := WaitingOne(t, time);
            && |w| <= 1
            && WaitingOne(t, time + 1) == (if w == [] then [] else AfterOne(w[0], time))
            && (Due(t, time) <==> w != [] && w[0].magic == time)
            && (w != [] ==> w[0].task == t)
  {
    if t.interval > 0 {
      WakeIsMultiple(t.interval, time);
      if time % t.interval == 0 {
        WakeAfterRun(t.interval, time);
      } else {
        WakeStable(t.interval, time, time + 1);
      }
    }
  }

  /** Between now and the earliest due time nothing is due, and no due time moves. */
  lemma {:induction false} NothingSkipped(ts: seq<Task>, from: nat, to: nat)
    requires Allowed(ts) && 0 < from <= to
    requires forall i :: 0 <= i < |Waiting(ts, from)| ==> to <= Waiting(ts, from)[i].magic
    ensures Waiting(ts, to) == Waiting(ts, from)
    ensures forall tick: nat :: from <= tick < to ==> Tick(ts, tick) == []
  {
    if ts != [] {
      var init, t := ts[..|ts| - 1], ts[|ts| - 1];
      var w, one := Waiting(init, from), WaitingOne(t, from);
      assert forall i :: 0 <= i < |w| ==> Waiting(ts, from)[i] == w[i];
      NothingSkipped(init, from, to);
      if t.interval > 0 {
        assert Waiting(ts, from)[|w|] == one[0];
        WakeStable(t.interval, from, to);
        forall tick: nat | from <= tick < to ensures !Due(t, tick) {
          if tick % t.interval == 0 {
            WakeIsLeast(t.interval, from, tick);
          }
        }
      }
    }
  }

  lemma {:induction false} NoTicks(ts: seq<Task>, from: nat, to: nat)
    requires from <= to && forall tick: nat :: from <= tick < to ==> Tick(ts, tick) == []
    ensures Ticks(ts, to) == Ticks(ts, from)
  {
    if from < to {
      NoTicks(ts, from, to - 1);
    }
  }

  /** The minimum is exact; 0 means there is nothing left. */
  lemma {:induction false} MinMagicExact(infos: seq<FuncInfo>)
    requires forall i :: 0 <= i < |infos| ==> infos[i].magic > 0
    ensures MinMagic(infos) == 0 <==> infos == []
    ensures forall i :: 0 <= i < |infos| ==> MinMagic(infos) <= infos[i].magic
    ensures infos != [] ==> exists i :: 0 <= i < |infos| && infos[i].magic == MinMagic(infos)
  {
    if infos != [] {
      MinMagicExact(infos[..|infos| - 1]);
    }
  }

  /** Each waiting task is due at the least multiple of its interval not before `time`, which is
      less than one interval away: sums of times and intervals are the largest numbers formed. */
  lemma {:induction false} WaitingTimes(ts: seq<Task>, time: nat)
    requires Allowed(ts) && time > 0
    ensures forall i :: 0 <= i < |Waiting(ts, time)| ==>
              var x := Waiting(ts, time)[i];
              x.task.interval > 0 && x.magic == Wake(x.task.interval, time) && time <= x.magic < time + x.task.interval
    ensures Waiting(ts, time) == [] <==> !Periodic(ts)
  {
    if ts != [] {
      var init, t := ts[..|ts| - 1], ts[|ts| - 1];
      WaitingTimes(init, time);
      if t.interval > 0 {
        WakeIsMultiple(t.interval, time);
        assert Periodic(ts);
      } else {
        assert Periodic(ts) ==> Periodic(init) by {
          if i :| 0 <= i < |ts| && ts[i].interval > 0 {
            assert init[i] == ts[i];
          }
        }
        assert Periodic(init) ==> Periodic(ts) by {
          if i :| 0 <= i < |init| && init[i].interval > 0 {
            assert ts[i] == init[i];
          }
        }
      }
    }
  }

  // ---------------------------------------------------------------- the run

  function Sum(s: seq<int>): int {
    if s == [] then 0 else Sum(s[..|s| - 1]) + s[|s| - 1]
  }

  /** What add_cycle_task has built up: each task due at 0. */
  function AtStart(ts: seq<Task>): seq<FuncInfo> {
    if ts == [] then [] else AtStart(ts[..|ts| - 1]) + [FuncInfo(ts[|ts| - 1], 0)]
  }

  lemma {:induction false} StartIsWaiting(ts: seq<Task>)
    requires Allowed(ts)
    ensures AtStart(ts) == Waiting(ts, 0)
  {
    if ts != [] {
      var init, t := ts[..|ts| - 1], ts[|ts| - 1];
      StartIsWaiting(init);
      assert t.interval > 0 ==> Wake(t.interval, 0) == 0;
    }
  }

  /** At `now`, before its round: what waits, and what has been called. (The quantifier keeps the
      definitions folded where the fact is only handed on.) */
  ghost predicate Reached(ts: seq<Task>, now: nat, tasks: seq<FuncInfo>, calls: seq<Call>)
    requires Allowed(ts)
  {
    forall t: nat :: t == now ==> tasks == Waiting(ts, t) && calls == Ticks(ts, t)
  }

  /** Positive sleeps that sum to `now`. */
  predicate Slept(sleeps: seq<int>, now: int) {
    Sum(sleeps) == now && forall i :: 0 <= i < |sleeps| ==> sleeps[i] > 0
  }

  lemma SleptOn(sleeps: seq<int>, now: int, min: int)
    requires Slept(sleeps, now) && now < min
    ensures Slept(sleeps + [min - now], min)
  {
    assert (sleeps + [min - now])[..|sleeps|] == sleeps;
  }

  /** A round either finds nothing left or leads to the next tick at which anything happens. */
  lemma RoundLeads(ts: seq<Task>, now: nat, before: seq<FuncInfo>, calls: seq<Call>,
                   after: seq<FuncInfo>, more: seq<Call>, min: int)
    requires Allowed(ts) && Reached(ts, now, before, calls)
    requires after == After(before, now) && more == Calls(before, now) && min == MinMagic(after)
    ensures min == 0 <==> !Periodic(ts)
    ensures min == 0 ==> after == [] && forall end: nat :: end > now ==> Ticks(ts, end) == calls + more
    ensures min != 0 ==> now < min && Tick(ts, min) != [] && Reached(ts, min, after, calls + more)
  {
    assert before == Waiting(ts, now) && calls == Ticks(ts, now);
    PassIsTick(ts, now);
    Jump(ts, now, min);
  }

  class CycleTask {
    var tasks: seq<FuncInfo>
    ghost var registered: seq<Task>

    /** Before svc: every task registered, due at 0. */
    ghost predicate Loaded()
      reads this
    {
      tasks == AtStart(registered)
    }

    constructor ()
      ensures Loaded() && registered == []
    {
      tasks := [];
      registered := [];
    }

    method AddCycleTask(interval: int, id: nat)
      requires Loaded()
      modifies this
      ensures Loaded() && registered == old(registered) + [Task(id, interval)]
    {
      tasks := tasks + [FuncInfo(Task(id, interval), 0)];
      registered := registered + [Task(id, interval)];
      assert registered[..|registered| - 1] == old(registered);
    }

    /** svc, asked to stop after `stopAfter` rounds. `now` is the virtual time reached; `idle` says
        that it ended by itself. */
    method Svc(stopAfter: nat) returns (calls: seq<Call>, sleeps: seq<int>, now: nat, idle: bool)
      requires Loaded() && Allowed(registered)
      modifies this`tasks
      ensures calls == Ticks(registered, if idle then now + 1 else now)
      ensures idle <==> stopAfter > 0 && !Periodic(registered)
      ensures idle ==> tasks == [] && sleeps == [] && forall end: nat :: end > 0 ==> Ticks(registered, end) == calls
      ensures !idle ==> tasks == Waiting(registered, now) && |sleeps| == stopAfter
      ensures !idle && stopAfter > 0 ==> Tick(registered, now) != []
      ensures Sum(sleeps) == now && forall i :: 0 <= i < |sleeps| ==> sleeps[i] > 0
    {
      calls, sleeps, now, idle := [], [], 0, false;
      ghost var ts := registered;
      StartIsWaiting(ts);
      var rounds := 0;
      while rounds < stopAfter
        invariant rounds == |sleeps| <= stopAfter && (now > 0 <==> rounds > 0)
        invariant Reached(ts, now, tasks, calls) && Slept(sleeps, now)
        invariant rounds > 0 ==> Periodic(ts) && Tick(ts, now) != []
      {
        ghost var before := tasks;
        var more, min := Round(now);
        RoundLeads(ts, now, before, calls, tasks, more, min);
        calls := calls + more;
        if min == 0 {
          return calls, sleeps, now, true;
        }
        SleptOn(sleeps, now, min);
        sleeps := sleeps + [min - now];
        now := min;
        rounds := rounds + 1;
      }
    }

    /** One pass over the list, erasing one-shots while iterating. */
    method Round(time: int) returns (calls: seq<Call>, min: int)
      modifies this`tasks
      ensures tasks == After(old(tasks), time)
      ensures calls == Calls(old(tasks), time) && min == MinMagic(tasks)
    {
      calls, min := [], 0;
      ghost var all, done := tasks, [];
      ghost var j := 0;
      var i := 0;
      while i < |tasks|
        invariant j <= |all| && i == |done| && tasks == done + all[j..]
        invariant done == After(all[..j], time) && min == MinMagic(done)
        invariant calls == Calls(all[..j], time)
        decreases |tasks| - i
      {
        var x := tasks[i];
        PassStep(all, done, j, time);
        j := j + 1;
        if x.magic == time {
          calls := calls + [Call(time, x.task.id)];
          if x.task.interval == -1 {
            tasks := tasks[..i] + tasks[i + 1..];
            continue;
          }
          x := x.(magic := x.magic + x.task.interval);
          tasks := tasks[i := x];
        }
        min := Earlier(min, x.magic);
        PushMin(done, x);
        done := done + [x];
        i := i + 1;
      }
      assert all[..j] == all && done + [] == done;
    }
  }

  /** After the pass at `now` the smallest due time is the next tick at which anything happens. */
  lemma Jump(ts: seq<Task>, now: nat, min: int)
    requires Allowed(ts) && min == MinMagic(Waiting(ts, now + 1))
    ensures min == 0 <==> !Periodic(ts)
    ensures min == 0 ==> Waiting(ts, now + 1) == [] && forall end: nat :: end > now ==> Ticks(ts, end) == Ticks(ts, now + 1)
    ensures min != 0 ==> now < min && Waiting(ts, min) == Waiting(ts, now + 1) && Ticks(ts, min) == Ticks(ts, now + 1)
    ensures min != 0 ==> Tick(ts, min) != []
  {
    Future(ts, now + 1);
    if min == 0 {
      NothingLeft(ts, now + 1);
    } else {
      NextTick(ts, now + 1, min);
    }
  }

  lemma Future(ts: seq<Task>, from: nat)
    requires Allowed(ts) && from > 0
    ensures MinMagic(Waiting(ts, from)) == 0 <==> Waiting(ts, from) == []
    ensures Waiting(ts, from) == [] <==> !Periodic(ts)
    ensures Waiting(ts, from) != [] ==> from <= MinMagic(Waiting(ts, from))
  {
    WaitingTimes(ts, from);
    MinMagicExact(Waiting(ts, from));
  }

  lemma NothingLeft(ts: seq<Task>, from: nat)
    requires Allowed(ts) && 0 < from && Waiting(ts, from) == []
    ensures forall end: nat :: end >= from ==> Ticks(ts, end) == Ticks(ts, from)
  {
    forall end: nat | end >= from ensures Ticks(ts, end) == Ticks(ts, from) {
      NothingSkipped(ts, from, end);
      NoTicks(ts, from, end);
    }
  }

  lemma NextTick(ts: seq<Task>, from: nat, min: nat)
    requires Allowed(ts) && 0 < from && Waiting(ts, from) != [] && min == MinMagic(Waiting(ts, from))
    ensures from <= min && Waiting(ts, min) == Waiting(ts, from)
    ensures Ticks(ts, min) == Ticks(ts, from) && Tick(ts, min) != []
  {
    Future(ts, from);
    WaitingTimes(ts, from);
    MinMagicExact(Waiting(ts, from));
    NothingSkipped(ts, from, min);
    NoTicks(ts, from, min);
    PassIsTick(ts, min);
    var i :| 0 <= i < |Waiting(ts, min)| && Waiting(ts, min)[i].magic == min;
    CallsSome(Waiting(ts, min), min, i);
  }

  lemma {:induction false} CallsSome(infos: seq<FuncInfo>, time: int, i: nat)
    requires i < |infos| && infos[i].magic == time
    ensures Calls(infos, time) != []
  {
    if i < |infos| - 1 {
      CallsSome(infos[..|infos| - 1], time, i);
    }
  }

  lemma PushMin(done: seq<FuncInfo>, x: FuncInfo)
    ensures MinMagic(done + [x]) == Earlier(MinMagic(done), x.magic)
  {
    assert (done + [x])[..|done|] == done;
  }

  /** Where the pass stands in the list: what it has left behind, then what it has not reached. */
  lemma PassStep(all: seq<FuncInfo>, done: seq<FuncInfo>, j: nat, time: int)
    requires j < |all|
    ensures After(all[..j + 1], time) == After(all[..j], time) + AfterOne(all[j], time)
    ensures Calls(all[..j + 1], time) == Calls(all[..j], time) +
            if all[j].magic == time then [Call(time, all[j].task.id)] else []
    ensures var list := done + all[j..];
            && list[|done|] == all[j] && list == done + [all[j]] + all[j + 1..]
            && list[..|done|] + list[|done| + 1..] == done + all[j + 1..]
            && forall y :: list[|done| := y] == done + [y] + all[j + 1..]
  {
    assert all[..j + 1][..j] == all[..j];
    assert all[j..] == [all[j]] + all[j + 1..];
  }

  /** The whole schedule at once: what has been called before `time` never changes later. */
  lemma {:induction false} TicksGrow(ts: seq<Task>, early: nat, late: nat)
    requires early <= late
    ensures Ticks(ts, early) <= Ticks(ts, late)
    decreases late
  {
    if early < late {
      TicksGrow(ts, early, late - 1);
    }
  }

  // ---------------------------------------------------------------- how often a task runs

  function Runs(calls: seq<Call>, id: nat): nat {
    if calls == [] then 0 else Runs(calls[..|calls| - 1], id) + if calls[|calls| - 1].id == id then 1 else 0
  }

  lemma {:induction false} RunsAppend(a: seq<Call>, b: seq<Call>, id: nat)
    ensures Runs(a + b, id) == Runs(a, id) + Runs(b, id)
    decreases |b|
  {
    if b == [] {
      assert a + b == a;
    } else {
      assert (a + b)[..|a + b| - 1] == a + b[..|b| - 1];
      RunsAppend(a, b[..|b| - 1], id);
    }
  }

  predicate Distinct(ts: seq<Task>) {
    forall i, j :: 0 <= i < j < |ts| ==> ts[i].id != ts[j].id
  }

  lemma {:induction false} RunsInTick(ts: seq<Task>, tick: nat, p: nat)
    requires Distinct(ts) && p < |ts|
    ensures Runs(Tick(ts, tick), ts[p].id) == if Due(ts[p], tick) then 1 else 0
  {
    var init, t := ts[..|ts| - 1], ts[|ts| - 1];
    var one := if Due(t, tick) then [Call(tick, t.id)] else [];
    RunsAppend(Tick(init, tick), one, ts[p].id);
    assert Runs(one, ts[p].id) == if Due(t, tick) && p == |ts| - 1 then 1 else 0;
    if p < |ts| - 1 {
      RunsInTick(init, tick, p);
    } else {
      NotInTick(init, tick, t.id);
    }
  }

  lemma {:induction false} NotInTick(ts: seq<Task>, tick: nat, id: nat)
    requires forall i :: 0 <= i < |ts| ==> ts[i].id != id
    ensures Runs(Tick(ts, tick), id) == 0
  {
    if ts != [] {
      var t := ts[|ts| - 1];
      NotInTick(ts[..|ts| - 1], tick, id);
      RunsAppend(Tick(ts[..|ts| - 1], tick), if Due(t, tick) then [Call(tick, t.id)] else [], id);
    }
  }

  /** When the round at `time` is over, a task of interval k has run floor(time / k) + 1 times and a
      one-shot exactly once. */
  lemma {:induction false} RunCount(ts: seq<Task>, p: nat, time: nat)
    requires Allowed(ts) && Distinct(ts) && p < |ts|
    ensures Runs(Ticks(ts, time + 1), ts[p].id) == if ts[p].interval == -1 then 1 else time / ts[p].interval + 1
  {
    RunsAppend(Ticks(ts, time), Tick(ts, time), ts[p].id);
    RunsInTick(ts, time, p);
    if time > 0 {
      RunCount(ts, p, time - 1);
      if ts[p].interval > 0 {
        Quotients(time, ts[p].interval);
      }
    } else {
      assert Ticks(ts, 0) == [];
    }
  }

  lemma Quotients(time: nat, k: int)
    requires time > 0 && k > 0
    ensures time / k == (time - 1) / k + if time % k == 0 then 1 else 0
  {
    var q, r := (time - 1) / k, (time - 1) % k;
    assert time - 1 == q * k + r;
    if r + 1 < k {
      DivUnique(time, k, q, r + 1);
    } else {
      assert (q + 1) * k == q * k + k;
      DivUnique(time, k, q + 1, 0);
    }
  }
}
