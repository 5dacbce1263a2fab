/** One timer or idle across any number of rounds of the loop. */
module TimerRun {

  import opened Basics
  import opened HeapShape
  import opened LoopModel
  import opened Trace
  import Loop

  predicate Armed(e: Event) { e.kind.Timeout? ==> e.kind.ms >= 1 }

  /** The timer after the passes of a run. */
  function Run(x: Timer, ticks: seq<Tick>): (y: Timer)
    requires Armed(x.e)
    ensures y.e == x.e.(repeat := y.e.repeat, destroy := y.e.destroy) && (x.e.repeat <= INFINITE ==> y.e.repeat <= INFINITE)
    decreases |ticks|
  {
    if ticks == [] then x else Pass(Run(x, ticks[..|ticks| - 1]), ticks[|ticks| - 1])
  }

  predicate IsDue(x: Timer, k: Tick) { !x.e.destroy && x.due <= k.time }

  /** The number of passes of a run in which the timer is alive and due. */
  function DuePasses(x: Timer, ticks: seq<Tick>): nat
    requires Armed(x.e)
    decreases |ticks|
  {
    if ticks == [] then 0
    else
      var n := |ticks| - 1;
      DuePasses(x, ticks[..n]) + if IsDue(Run(x, ticks[..n]), ticks[n]) then 1 else 0
  }

  /** A timer added with a finite repeat n >= 1 fires at most n times, and is destroyed by its n-th firing. */
  lemma {:induction false} FiresExactly(x: Timer, ticks: seq<Tick>)
    requires Armed(x.e) && !x.e.destroy && 1 <= x.e.repeat < INFINITE
    ensures var y := Run(x, ticks);
      && y.fires - x.fires == DuePasses(x, ticks)
      && y.fires - x.fires <= x.e.repeat
      && y.e.repeat == x.e.repeat - (y.fires - x.fires)
      && (y.e.destroy <==> y.fires - x.fires == x.e.repeat)
    decreases |ticks|
  {
    if ticks != [] { FiresExactly(x, ticks[..|ticks| - 1]); }
  }

  /** A repeat of INFINITE never runs out; neither does a repeat of 0, which wraps around to it. */
  lemma {:induction false} NeverEnds(x: Timer, ticks: seq<Tick>)
    requires Armed(x.e) && !x.e.destroy && (x.e.repeat == INFINITE || x.e.repeat == 0)
    ensures var y := Run(x, ticks);
      !y.e.destroy && y.fires - x.fires == DuePasses(x, ticks) && (y.e.repeat == INFINITE || y.e.repeat == 0)
    decreases |ticks|
  {
    if ticks != [] { NeverEnds(x, ticks[..|ticks| - 1]); }
  }

  /** The due times of a timer of htimer_add stay on the grid of the first one: whole periods after it. */
  lemma {:induction false} OnGrid(x: Timer, ticks: seq<Tick>) returns (k: nat)
    requires x.e.kind.Timeout? && x.e.kind.ms >= 1
    ensures Run(x, ticks).due == x.due + k * (x.e.kind.ms * 1000)
    decreases |ticks|
  {
    if ticks == [] {
      k := 0;
    } else {
      var n := |ticks| - 1;
      var j := OnGrid(x, ticks[..n]);
      var y, step := Run(x, ticks[..n]), x.e.kind.ms * 1000;
      var i := if y.due == Run(x, ticks).due then 0 else Turns(y.due, step, ticks[n].time);
      NextDueOnGrid(y.due, step, ticks[n].time);
      k := i + j;
      assert (i + j) * step == i * step + j * step;
    }
  }

  // ---- the rounds of hloop_run

  /** The clocks of a round, what cron_next_timeout says in it, and what the callbacks do. */
  datatype Round = Round(hrtime: int, now: int, cron: Ptr -> int, cb: (Ptr, nat) -> seq<Action>)

  function Ticks(rounds: seq<Round>, e: Event, p: Ptr): (ticks: seq<Tick>)
    ensures |ticks| == |rounds|
  {
    if rounds == [] then []
    else
      var n := |rounds| - 1;
      var r := rounds[n];
      Ticks(rounds[..n], e, p) + [Loop.TickOf(e, r.hrtime, r.now, r.cron(p))]
  }

  /** The timer of address p is not freed in the first n rounds. */
  ghost predicate Lives(ts: seq<seq<Step>>, n: nat, p: Ptr)
    requires n <= |ts|
  {
    forall i :: 0 <= i < n ==> Freed(p) !in ts[i]
  }

  /** Until it is freed, every round does to the timer x of address p what Told says. */
  ghost predicate Story(x: Timer, ticks: seq<Tick>, ts: seq<seq<Step>>, p: Ptr)
    requires Armed(x.e)
  {
    |ticks| == |ts| && forall n :: 0 <= n < |ts| && Lives(ts, n, p) ==> Told(Run(x, ticks[..n]), ticks[n], ts[n], p)
  }

  /** The callbacks of p from the first round up to the one that frees it. */
  ghost function Calls(ts: seq<seq<Step>>, p: Ptr): nat
    decreases |ts|
  {
    if ts == [] then 0
    else
      var n := |ts| - 1;
      Calls(ts[..n], p) + if Lives(ts, n, p) then Invocations(ts[n], p) else 0
  }

  /** No callback deletes p while it lives. */
  ghost predicate LeftAlone(ts: seq<seq<Step>>, p: Ptr) {
    forall n :: 0 <= n < |ts| && Lives(ts, n, p) ==> Deleted(p) !in ts[n]
  }

  /** In each round in which it is due and lives, a timer is called once unless a callback deletes it. */
  lemma CalledWhenDue(x: Timer, ticks: seq<Tick>, ts: seq<seq<Step>>, p: Ptr, n: nat)
    requires Armed(x.e) && Story(x, ticks, ts, p) && n < |ts| && Lives(ts, n, p)
    ensures Invocations(ts[n], p) <= if IsDue(Run(x, ticks[..n]), ticks[n]) then 1 else 0
    ensures Deleted(p) !in ts[n] ==> Invocations(ts[n], p) == if IsDue(Run(x, ticks[..n]), ticks[n]) then 1 else 0
  {
    assert Told(Run(x, ticks[..n]), ticks[n], ts[n], p);
  }

  /** Whatever the callbacks do, a timer is called in no more rounds than it is due in, and in exactly those if it is left alone. */
  lemma {:induction false} CallsDue(x: Timer, ticks: seq<Tick>, ts: seq<seq<Step>>, p: Ptr)
    requires Armed(x.e) && Story(x, ticks, ts, p)
    ensures Calls(ts, p) <= DuePasses(x, ticks)
    ensures LeftAlone(ts, p) ==> Calls(ts, p) == DuePasses(x, ticks) && (Run(x, ticks).e.destroy <==> x.e.destroy || !Lives(ts, |ts|, p))
    decreases |ts|
  {
    if ts != [] {
      var n := |ts| - 1;
      hide Run, DuePasses;
      StoryPrefix(x, ticks, ts, p, n);
      var y, k := Run(x, ticks[..n]), ticks[n];
      Unrolled(x, ticks);
      assert Calls(ts, p) == Calls(ts[..n], p) + if Lives(ts, n, p) then Invocations(ts[n], p) else 0;
      hide Story, Lives, LeftAlone, Calls, Invocations, Told, IsDue, Pass;
      CallsDue(x, ticks[..n], ts[..n], p);
      LivesStep(ts, p, n);
      if y.e.destroy { Settled(y, k); }
      if Lives(ts, n, p) {
        Tells(x, ticks, ts, p, n);
        CalledWhenDue(x, ticks, ts, p, n);
        FreedWhen(y, k, ts[n], p);
      }
    }
  }

  lemma Unrolled(x: Timer, ticks: seq<Tick>)
    requires Armed(x.e) && ticks != []
    ensures var n := |ticks| - 1; var y := Run(x, ticks[..n]);
      Run(x, ticks) == Pass(y, ticks[n]) && DuePasses(x, ticks) == DuePasses(x, ticks[..n]) + if IsDue(y, ticks[n]) then 1 else 0
  {
  }

  lemma Settled(x: Timer, k: Tick)
    requires Armed(x.e) && x.e.destroy
    ensures Pass(x, k) == x && !IsDue(x, k)
  {
  }

  lemma FreedWhen(x: Timer, k: Tick, t: seq<Step>, p: Ptr)
    requires Armed(x.e) && Told(x, k, t, p)
    ensures Freed(p) in t <==> Pass(x, k).e.destroy || Deleted(p) in t
  {
  }

  lemma Tells(x: Timer, ticks: seq<Tick>, ts: seq<seq<Step>>, p: Ptr, n: nat)
    requires Armed(x.e) && Story(x, ticks, ts, p) && n < |ts| && Lives(ts, n, p)
    ensures Told(Run(x, ticks[..n]), ticks[n], ts[n], p)
  {
  }

  lemma LivesStep(ts: seq<seq<Step>>, p: Ptr, n: nat)
    requires n < |ts|
    ensures Lives(ts, n + 1, p) <==> Lives(ts, n, p) && Freed(p) !in ts[n]
    ensures LeftAlone(ts, p) && Lives(ts, n, p) ==> Deleted(p) !in ts[n]
  {
  }

  lemma StoryPrefix(x: Timer, ticks: seq<Tick>, ts: seq<seq<Step>>, p: Ptr, n: nat)
    requires Armed(x.e) && Story(x, ticks, ts, p) && n <= |ts|
    ensures Story(x, ticks[..n], ts[..n], p) && (Lives(ts, n, p) <==> Lives(ts[..n], n, p))
    ensures LeftAlone(ts, p) ==> LeftAlone(ts[..n], p)
  {
    hide Told, Run;
    var ticks', ts' := ticks[..n], ts[..n];
    forall i | 0 <= i <= n ensures Lives(ts, i, p) <==> Lives(ts', i, p) {
      assert forall j :: 0 <= j < i ==> ts'[j] == ts[j];
    }
    forall i | 0 <= i < n && Lives(ts', i, p)
      ensures Told(Run(x, ticks'[..i]), ticks'[i], ts'[i], p) && (LeftAlone(ts, p) ==> Deleted(p) !in ts'[i])
    {
      assert Lives(ts, i, p);
      assert ticks'[..i] == ticks[..i];
    }
  }

  /**
    A timer of repeat n, with arbitrary callbacks: at most n calls. One that is left alone is called in
    each round in which it is due until there have been n calls, and the n-th call frees it.
    */
  lemma AtMostRepeat(x: Timer, ticks: seq<Tick>, ts: seq<seq<Step>>, p: Ptr)
    requires Armed(x.e) && Story(x, ticks, ts, p) && !x.e.destroy && 1 <= x.e.repeat < INFINITE
    ensures Calls(ts, p) <= x.e.repeat
    ensures LeftAlone(ts, p) ==> Calls(ts, p) == DuePasses(x, ticks) && (Calls(ts, p) == x.e.repeat <==> !Lives(ts, |ts|, p))
  {
    CallsDue(x, ticks, ts, p);
    FiresExactly(x, ticks);
  }

  /** A timer of repeat INFINITE or 0 that is left alone is never freed. */
  lemma NeverFreed(x: Timer, ticks: seq<Tick>, ts: seq<seq<Step>>, p: Ptr)
    requires Armed(x.e) && Story(x, ticks, ts, p) && !x.e.destroy && (x.e.repeat == INFINITE || x.e.repeat == 0)
    ensures LeftAlone(ts, p) ==> Lives(ts, |ts|, p) && Calls(ts, p) == DuePasses(x, ticks)
  {
    CallsDue(x, ticks, ts, p);
    NeverEnds(x, ticks);
  }

  /** The call of round n is for a due time on the grid that has come. */
  lemma CalledOnGrid(x: Timer, ticks: seq<Tick>, ts: seq<seq<Step>>, p: Ptr, n: nat) returns (k: nat)
    requires x.e.kind.Timeout? && x.e.kind.ms >= 1 && Story(x, ticks, ts, p) && n < |ts| && Lives(ts, n, p)
    ensures Invocations(ts[n], p) > 0 ==> x.due + k * (x.e.kind.ms * 1000) <= ticks[n].time
    ensures Run(x, ticks[..n]).due == x.due + k * (x.e.kind.ms * 1000)
  {
    CalledWhenDue(x, ticks, ts, p, n);
    k := OnGrid(x, ticks[..n]);
  }

  /** The due time a period timer has after a pass in which it fires is what cron_next_timeout said then, in microseconds. */
  lemma CronDue(x: Timer, ticks: seq<Tick>, k: Tick)
    requires x.e.kind.Period?
    ensures var y, z := Run(x, ticks), Run(x, ticks + [k]);
      z.due == if IsDue(y, k) && !z.e.destroy then 1000000 * k.cron else y.due
  {
    RunStep(x, ticks, k);
  }

  // ---- idles

  /** An idle is a timer that is due in the quiet rounds. */
  function IdleTick(quiet: bool): Tick { Tick(if quiet then 0 else -1, 0) }

  function IdleTicks(quiets: seq<bool>): (ticks: seq<Tick>)
    ensures |ticks| == |quiets|
  {
    if quiets == [] then [] else var n := |quiets| - 1; IdleTicks(quiets[..n]) + [IdleTick(quiets[n])]
  }

  function QuietRounds(quiets: seq<bool>): nat {
    if quiets == [] then 0 else var n := |quiets| - 1; QuietRounds(quiets[..n]) + if quiets[n] then 1 else 0
  }

  /** An idle of repeat N is due in the first N quiet rounds; one of repeat INFINITE or 0 in all of them. */
  lemma {:induction false} IdleDue(x: Timer, quiets: seq<bool>)
    requires x.e.kind.Idle? && x.due == 0 && !x.e.destroy && x.e.repeat <= INFINITE
    ensures Run(x, IdleTicks(quiets)).due == 0
    ensures var n := QuietRounds(quiets);
      DuePasses(x, IdleTicks(quiets)) == if 1 <= x.e.repeat < INFINITE && x.e.repeat < n then x.e.repeat else n
    decreases |quiets|
  {
    if quiets != [] {
      var n := |quiets| - 1;
      var ticks := IdleTicks(quiets);
      assert ticks[..n] == IdleTicks(quiets[..n]) && ticks[n] == IdleTick(quiets[n]);
      IdleDue(x, quiets[..n]);
      Unrolled(x, ticks);
      hide Run, DuePasses, IdleTicks;
      if 1 <= x.e.repeat < INFINITE { FiresExactly(x, ticks[..n]); } else { NeverEnds(x, ticks[..n]); }
    }
  }

  /** An idle of repeat N that no callback deletes is called in the first N quiet rounds, once in each, and in no other. */
  lemma IdleCalls(x: Timer, quiets: seq<bool>, ts: seq<seq<Step>>, p: Ptr)
    requires x.e.kind.Idle? && x.due == 0 && !x.e.destroy && x.e.repeat <= INFINITE && Story(x, IdleTicks(quiets), ts, p)
    ensures var n := QuietRounds(quiets);
      var m := if 1 <= x.e.repeat < INFINITE && x.e.repeat < n then x.e.repeat else n;
      Calls(ts, p) <= m && (LeftAlone(ts, p) ==> Calls(ts, p) == m)
  {
    IdleDue(x, quiets);
    CallsDue(x, IdleTicks(quiets), ts, p);
  }

  lemma IdleTold(x: Timer, quiet: bool, t: seq<Step>, ev': Events, p: Ptr)
    requires x.e.kind.Idle? && x.due == 0 && !x.e.destroy && IdleRound(x.e, quiet, t, ev', p)
    ensures Told(x, IdleTick(quiet), t, p)
    ensures Freed(p) !in t ==> p in ev' && ev'[p] == Pass(x, IdleTick(quiet)).e.(next := ev'[p].next)
    ensures Pass(x, IdleTick(quiet)).due == 0
  {
  }

  // ---- the loop keeps to it

  /** What one round promises of the state before it and after it. */
  ghost predicate Turn(ev: Events, due: Keys, r: Round, t: seq<Step>, ev': Events, due': Keys) {
    && ev'.Keys == AllocatedAfter(ev.Keys, t)
    && (forall p :: p in ev' ==> !ev'[p].pending)
    && (forall p :: AtRest(ev, due, p) ==> TimerRound(ev, due, Loop.TickOf(ev[p], r.hrtime, r.now, r.cron(p)), t, ev', due', p))
    && (forall p :: IdleAtRest(ev, p) ==> IdleRound(ev[p], Loop.Quiet(ev, due, r.hrtime, r.now), t, ev', p))
  }

  /** The timers and idles of a state that are not pending. */
  ghost predicate AtRest(ev: Events, due: Keys, p: Ptr) { Loop.IsTimer(ev, due, p) && !ev[p].pending }
  ghost predicate IdleAtRest(ev: Events, p: Ptr) { Loop.IsIdle(ev, p) && !ev[p].pending }

  /** The states between the rounds of a run: each round leads from one to the next. */
  ghost predicate Runs(rounds: seq<Round>, ts: seq<seq<Step>>, evs: seq<Events>, dues: seq<Keys>) {
    && |ts| == |rounds| && |evs| == |dues| == |rounds| + 1
    && forall n :: 0 <= n < |rounds| ==> Turn(evs[n], dues[n], rounds[n], ts[n], evs[n + 1], dues[n + 1])
  }

  /** Which rounds are quiet. */
  ghost function Quiets(rounds: seq<Round>, evs: seq<Events>, dues: seq<Keys>): (q: seq<bool>)
    requires |evs| >= |rounds| && |dues| >= |rounds|
    ensures |q| == |rounds| && forall n :: 0 <= n < |q| ==> q[n] == Loop.Quiet(evs[n], dues[n], rounds[n].hrtime, rounds[n].now)
  {
    if rounds == [] then []
    else
      var n := |rounds| - 1;
      Quiets(rounds[..n], evs, dues) + [Loop.Quiet(evs[n], dues[n], rounds[n].hrtime, rounds[n].now)]
  }

  /** What the rounds so far have made of the timer that was at p. */
  ghost predicate Kept(ev0: Events, due0: Keys, rounds: seq<Round>, ts: seq<seq<Step>>, ev: Events, due: Keys, p: Ptr)
    requires p in ev0 && p in due0 && Armed(ev0[p])
  {
    var x, ticks := Timer(ev0[p], due0[p], 0), Ticks(rounds, ev0[p], p);
    Story(x, ticks, ts, p) && (Lives(ts, |ts|, p) ==> Holds(Run(x, ticks), p, ev, due) && !Run(x, ticks).e.destroy)
  }

  /** What the rounds so far have made of the idle that was at p. */
  ghost predicate IdleKept(ev0: Events, quiets: seq<bool>, ts: seq<seq<Step>>, ev: Events, p: Ptr)
    requires p in ev0 && Armed(ev0[p])
  {
    var x, ticks := Timer(ev0[p], 0, 0), IdleTicks(quiets);
    && Story(x, ticks, ts, p) && Run(x, ticks).due == 0
    && (Lives(ts, |ts|, p) ==> p in ev && ev[p] == Run(x, ticks).e.(next := ev[p].next) && !ev[p].destroy)
  }

  /** The same fields but the list link: the same story. */
  lemma Retold(x: Timer, y: Timer, k: Tick, t: seq<Step>, p: Ptr)
    requires Armed(x.e) && y.e == x.e.(next := y.e.next) && y.due == x.due && Told(y, k, t, p)
    ensures Told(x, k, t, p)
    ensures Pass(y, k).e == Pass(x, k).e.(next := y.e.next) && Pass(y, k).due == Pass(x, k).due
  {
  }

  lemma KeptStep(ev0: Events, due0: Keys, rounds: seq<Round>, r: Round, ts: seq<seq<Step>>, ev: Events, due: Keys,
                 t: seq<Step>, ev': Events, due': Keys, p: Ptr)
    requires AtRest(ev0, due0, p) && Kept(ev0, due0, rounds, ts, ev, due, p)
    requires AtRest(ev, due, p) ==> TimerRound(ev, due, Loop.TickOf(ev[p], r.hrtime, r.now, r.cron(p)), t, ev', due', p)
    ensures Kept(ev0, due0, rounds + [r], ts + [t], ev', due', p)
  {
    var x, ticks := Timer(ev0[p], due0[p], 0), Ticks(rounds, ev0[p], p);
    var k := Loop.TickOf(ev0[p], r.hrtime, r.now, r.cron(p));
    var y := Run(x, ticks);
    assert (rounds + [r])[..|rounds|] == rounds;
    assert Ticks(rounds + [r], ev0[p], p) == ticks + [k];
    assert (ticks + [k])[..|ticks|] == ticks;
    if Lives(ts, |ts|, p) {
      assert Loop.TickOf(ev[p], r.hrtime, r.now, r.cron(p)) == k;
      hide Told, Run, Loop.TickOf, Pass, Ticks;
      Retold(y, Timer(ev[p], due[p], 0), k, t, p);
      if Freed(p) !in t { Ends(y, k, t, p); }
    }
    hide Told, Run, Loop.TickOf, Pass, Ticks;
    StoryStep(x, ticks, k, ts, t, p);
    assert Run(x, ticks + [k]) == Pass(y, k) by { RunStep(x, ticks, k); }
  }

  lemma IdleKeptStep(ev0: Events, quiets: seq<bool>, quiet: bool, ts: seq<seq<Step>>, ev: Events, t: seq<Step>, ev': Events, p: Ptr)
    requires IdleAtRest(ev0, p) && IdleKept(ev0, quiets, ts, ev, p)
    requires IdleAtRest(ev, p) ==> IdleRound(ev[p], quiet, t, ev', p)
    ensures IdleKept(ev0, quiets + [quiet], ts + [t], ev', p)
  {
    var x, ticks, k := Timer(ev0[p], 0, 0), IdleTicks(quiets), IdleTick(quiet);
    var y := Run(x, ticks);
    assert (quiets + [quiet])[..|quiets|] == quiets;
    assert IdleTicks(quiets + [quiet]) == ticks + [k];
    if Lives(ts, |ts|, p) {
      hide Run, IdleTicks;
      IdleTold(Timer(ev[p], 0, 0), quiet, t, ev', p);
      hide Told, Pass, IdleTick;
      Retold(y, Timer(ev[p], 0, 0), k, t, p);
      if Freed(p) !in t { Ends(y, k, t, p); }
    }
    IdleDueStays(y, quiet);
    hide Told, Run, Pass, IdleTicks, IdleTick;
    StoryStep(x, ticks, k, ts, t, p);
    assert Run(x, ticks + [k]) == Pass(y, k) by { RunStep(x, ticks, k); }
  }

  lemma IdleDueStays(x: Timer, quiet: bool)
    requires x.e.kind.Idle? && x.due == 0
    ensures Pass(x, IdleTick(quiet)).due == 0
  {
  }

  lemma RunStep(x: Timer, ticks: seq<Tick>, k: Tick)
    requires Armed(x.e)
    ensures Run(x, ticks + [k]) == Pass(Run(x, ticks), k)
  {
    assert (ticks + [k])[..|ticks|] == ticks;
  }

  /** A round that does not free the timer does not destroy it. */
  lemma Ends(x: Timer, k: Tick, t: seq<Step>, p: Ptr)
    requires Armed(x.e) && Told(x, k, t, p) && Freed(p) !in t
    ensures !Pass(x, k).e.destroy
  {
  }

  lemma StoryStep(x: Timer, ticks: seq<Tick>, k: Tick, ts: seq<seq<Step>>, t: seq<Step>, p: Ptr)
    requires Armed(x.e) && Story(x, ticks, ts, p)
    requires Lives(ts, |ts|, p) ==> Told(Run(x, ticks), k, t, p)
    ensures Story(x, ticks + [k], ts + [t], p)
    ensures Lives(ts + [t], |ts| + 1, p) <==> Lives(ts, |ts|, p) && Freed(p) !in t
  {
    hide Told, Run;
    var ticks', ts' := ticks + [k], ts + [t];
    assert ts'[|ts|] == t;
    forall n | 0 <= n <= |ts| ensures Lives(ts', n, p) <==> Lives(ts, n, p) {
      assert forall i :: 0 <= i < n ==> ts'[i] == ts[i];
    }
    forall n | 0 <= n < |ts'| && Lives(ts', n, p) ensures Told(Run(x, ticks'[..n]), ticks'[n], ts'[n], p) {
      assert ticks'[..n] == ticks[..n];
      if n == |ts| { assert ticks[..n] == ticks; }
    }
  }

  /** The first n rounds of a run, for every timer that is at rest before them. */
  lemma {:induction false} TimersKept(rounds: seq<Round>, ts: seq<seq<Step>>, evs: seq<Events>, dues: seq<Keys>, n: nat, p: Ptr)
    requires Runs(rounds, ts, evs, dues) && n <= |rounds| && AtRest(evs[0], dues[0], p)
    ensures Kept(evs[0], dues[0], rounds[..n], ts[..n], evs[n], dues[n], p)
    decreases n
  {
    if n == 0 {
      assert rounds[..0] == [] && ts[..0] == [];
    } else {
      var m := n - 1;
      assert Turn(evs[m], dues[m], rounds[m], ts[m], evs[m + 1], dues[m + 1]);
      assert rounds[..n] == rounds[..m] + [rounds[m]] && ts[..n] == ts[..m] + [ts[m]];
      hide Kept, TimerRound, IdleRound, Runs, AtRest, Loop.TickOf;
      TimersKept(rounds, ts, evs, dues, m, p);
      KeptStep(evs[0], dues[0], rounds[..m], rounds[m], ts[..m], evs[m], dues[m], ts[m], evs[n], dues[n], p);
    }
  }

  lemma TurnIdle(ev: Events, due: Keys, r: Round, t: seq<Step>, ev': Events, due': Keys, p: Ptr)
    requires Turn(ev, due, r, t, ev', due')
    ensures IdleAtRest(ev, p) ==> IdleRound(ev[p], Loop.Quiet(ev, due, r.hrtime, r.now), t, ev', p)
  {
    hide TimerRound, IdleRound, Loop.TickOf, Loop.Quiet, AllocatedAfter;
  }

  lemma IdleKeptStart(ev: Events, p: Ptr)
    requires IdleAtRest(ev, p)
    ensures IdleKept(ev, [], [], ev, p)
  {
  }

  /** The same for the idles. */
  lemma {:induction false} IdlesKept(rounds: seq<Round>, ts: seq<seq<Step>>, evs: seq<Events>, dues: seq<Keys>, n: nat, p: Ptr)
    requires Runs(rounds, ts, evs, dues) && n <= |rounds| && IdleAtRest(evs[0], p)
    ensures IdleKept(evs[0], Quiets(rounds, evs, dues)[..n], ts[..n], evs[n], p)
    decreases n
  {
    hide IdleKept, Turn, IdleRound, IdleAtRest, Loop.Quiet, Quiets;
    var q := Quiets(rounds, evs, dues);
    if n == 0 {
      IdleKeptStart(evs[0], p);
      assert q[..0] == [] && ts[..0] == [];
    } else {
      var m := n - 1;
      assert Turn(evs[m], dues[m], rounds[m], ts[m], evs[m + 1], dues[m + 1]);
      assert q[..n] == q[..m] + [q[m]] && ts[..n] == ts[..m] + [ts[m]];
      TurnIdle(evs[m], dues[m], rounds[m], ts[m], evs[n], dues[n], p);
      hide Runs;
      IdlesKept(rounds, ts, evs, dues, m, p);
      IdleKeptStep(evs[0], q[..m], q[m], ts[..m], evs[m], ts[m], evs[n], p);
    }
  }

  /** A run that begins later is a run: timers and idles that callbacks have added are followed from their round on. */
  lemma Later(rounds: seq<Round>, ts: seq<seq<Step>>, evs: seq<Events>, dues: seq<Keys>, n: nat)
    requires Runs(rounds, ts, evs, dues) && n <= |rounds|
    ensures Runs(rounds[n..], ts[n..], evs[n..], dues[n..])
  {
    hide Turn;
    forall i | 0 <= i < |rounds| - n
      ensures Turn(evs[n..][i], dues[n..][i], rounds[n..][i], ts[n..][i], evs[n..][i + 1], dues[n..][i + 1])
    {
      assert Turn(evs[n + i], dues[n + i], rounds[n + i], ts[n + i], evs[n + i + 1], dues[n + i + 1]);
    }
  }

  /** hloop_run, as long as it is not stopped: every timer and idle that is not pending at the start has its story. */
  method Rounds(l: Loop.Loop, rounds: seq<Round>) returns (ts: seq<seq<Step>>, ghost evs: seq<Events>, ghost dues: seq<Keys>)
    requires l.Valid() && Loop.Tidy(l.events)
    requires forall i, p :: 0 <= i < |rounds| ==> rounds[i].cron(p) * 1000000 > rounds[i].now
    modifies l, l.timers, l.realtimers
    ensures l.Valid() && Loop.Tidy(l.events)
    ensures Runs(rounds, ts, evs, dues)
    ensures evs[0] == old(l.events) && dues[0] == old(l.due) && evs[|rounds|] == l.events && dues[|rounds|] == l.due
    ensures forall p :: AtRest(old(l.events), old(l.due), p) ==> Kept(old(l.events), old(l.due), rounds, ts, l.events, l.due, p)
    ensures forall p :: IdleAtRest(old(l.events), p) ==> IdleKept(old(l.events), Quiets(rounds, evs, dues), ts, l.events, p)
  {
    hide Turn, Good, Visits, Sorted, AllocatedAfter, Loop.Tidy, l.Valid, TimerRound, IdleRound, Loop.TickOf, Loop.IsTimer, Loop.IsIdle, Loop.Quiet, AtRest, IdleAtRest, Kept, IdleKept, Quiets;
    ts, evs, dues := [], [l.events], [l.due];
    while |ts| < |rounds|
      invariant l.Valid() && Loop.Tidy(l.events) && |ts| <= |rounds|
      invariant Runs(rounds[..|ts|], ts, evs, dues)
      invariant evs[0] == old(l.events) && dues[0] == old(l.due) && evs[|ts|] == l.events && dues[|ts|] == l.due
    {
      var r := rounds[|ts|];
      ghost var ev, due := l.events, l.due;
      var t, d := l.ProcessEvents(r.hrtime, r.now, r.cron, r.cb);
      Turned(ev, due, r, t, l.events, l.due);
      RunsStep(rounds[..|ts|], r, ts, t, evs, dues, l.events, l.due);
      assert rounds[..|ts|] + [r] == rounds[..|ts| + 1];
      ts, evs, dues := ts + [t], evs + [l.events], dues + [l.due];
    }
    assert rounds[..|ts|] == rounds;
    FollowAll(rounds, ts, evs, dues);
  }

  lemma Turned(ev: Events, due: Keys, r: Round, t: seq<Step>, ev': Events, due': Keys)
    requires ev'.Keys == AllocatedAfter(ev.Keys, t) && forall p :: p in ev' ==> !ev'[p].pending
    requires forall p :: Loop.IsTimer(ev, due, p) && !ev[p].pending ==>
      TimerRound(ev, due, Loop.TickOf(ev[p], r.hrtime, r.now, r.cron(p)), t, ev', due', p)
    requires forall p :: Loop.IsIdle(ev, p) && !ev[p].pending ==> IdleRound(ev[p], Loop.Quiet(ev, due, r.hrtime, r.now), t, ev', p)
    ensures Turn(ev, due, r, t, ev', due')
  {
    hide TimerRound, IdleRound, Loop.TickOf, Loop.Quiet;
  }

  lemma RunsStep(rounds: seq<Round>, r: Round, ts: seq<seq<Step>>, t: seq<Step>, evs: seq<Events>, dues: seq<Keys>, ev': Events, due': Keys)
    requires Runs(rounds, ts, evs, dues) && Turn(evs[|rounds|], dues[|rounds|], r, t, ev', due')
    ensures Runs(rounds + [r], ts + [t], evs + [ev'], dues + [due'])
  {
    hide Turn;
    var rs, us, es, ds := rounds + [r], ts + [t], evs + [ev'], dues + [due'];
    forall n | 0 <= n < |rs| ensures Turn(es[n], ds[n], rs[n], us[n], es[n + 1], ds[n + 1]) {
      if n < |rounds| { assert Turn(evs[n], dues[n], rounds[n], ts[n], evs[n + 1], dues[n + 1]); }
    }
  }

  lemma FollowAll(rounds: seq<Round>, ts: seq<seq<Step>>, evs: seq<Events>, dues: seq<Keys>)
    requires Runs(rounds, ts, evs, dues)
    ensures forall p :: AtRest(evs[0], dues[0], p) ==> Kept(evs[0], dues[0], rounds, ts, evs[|rounds|], dues[|rounds|], p)
    ensures forall p :: IdleAtRest(evs[0], p) ==> IdleKept(evs[0], Quiets(rounds, evs, dues), ts, evs[|rounds|], p)
  {
    var n, q := |rounds|, Quiets(rounds, evs, dues);
    assert rounds[..n] == rounds && ts[..n] == ts && q[..n] == q;
    hide Turn, Kept, IdleKept, Quiets, Runs;
    forall p | AtRest(evs[0], dues[0], p) ensures Kept(evs[0], dues[0], rounds, ts, evs[n], dues[n], p) {
      TimersKept(rounds, ts, evs, dues, n, p);
    }
    forall p | IdleAtRest(evs[0], p) ensures IdleKept(evs[0], q, ts, evs[n], p) {
      IdlesKept(rounds, ts, evs, dues, n, p);
    }
  }
}
