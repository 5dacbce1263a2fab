/** What happens during one dispatch pass of hloop_process_pendings. */
module Trace {

  import opened Basics
  import opened HeapShape
  import opened LoopModel

  /** What a callback may do to the timers and idles of the loop. */
  datatype Action =
    | Del(p: Ptr)
    | AddTimer(p: Ptr, ms: nat, repeat: nat, now: nat)
    | AddPeriod(p: Ptr, when: Cron, repeat: nat, next: int)
    | AddIdle(p: Ptr, repeat: nat)

  datatype Step =
    | Invoked(p: Ptr) // the callback of p is called
    | Skipped(p: Ptr) // p is visited but not active any more
    | Deleted(p: Ptr) // a callback deletes p
    | Added(p: Ptr) // a callback adds an event, allocated at p
    | Freed(p: Ptr)

  /** The events visited, in order. */
  function Visits(t: seq<Step>): seq<Ptr> {
    if t == [] then []
    else Visits(t[..|t| - 1]) + (var s := t[|t| - 1]; if s.Invoked? || s.Skipped? then [s.p] else [])
  }

  /** The allocated addresses after the steps of t. */
  function AllocatedAfter(start: set<Ptr>, t: seq<Step>): set<Ptr> {
    if t == [] then start
    else
      var before, s := AllocatedAfter(start, t[..|t| - 1]), t[|t| - 1];
      if s.Added? then before + {s.p} else if s.Freed? then before - {s.p} else before
  }

  /** The step s is right after the steps of before, in a pass that began with the events ev. */
  ghost predicate StepOk(ev: Events, before: seq<Step>, s: Step) {
    match s
    // a callback is called exactly when the event was active at the start and no callback has deleted it since
    case Invoked(p) => p in ev && ev[p].pending && ev[p].active && Deleted(p) !in before && Freed(p) !in before
    case Skipped(p) => p in ev && ev[p].pending && (!ev[p].active || Deleted(p) in before) && Freed(p) !in before
    // memory is freed only while allocated, and allocated only while free
    case Freed(p) => p in AllocatedAfter(ev.Keys, before)
    case Added(p) => p !in AllocatedAfter(ev.Keys, before)
    case Deleted(p) => p in AllocatedAfter(ev.Keys, before)
  }

  ghost predicate Good(ev: Events, t: seq<Step>) {
    forall k :: 0 <= k < |t| ==> StepOk(ev, t[..k], t[k])
  }

  lemma Append(ev: Events, t: seq<Step>, s: Step)
    requires Good(ev, t) && StepOk(ev, t, s)
    ensures Good(ev, t + [s])
    ensures Visits(t + [s]) == Visits(t) + if s.Invoked? || s.Skipped? then [s.p] else []
    ensures AllocatedAfter(ev.Keys, t + [s]) ==
      var before := AllocatedAfter(ev.Keys, t);
      if s.Added? then before + {s.p} else if s.Freed? then before - {s.p} else before
  {
    var t' := t + [s];
    assert t'[..|t|] == t;
    forall k | 0 <= k < |t'| ensures StepOk(ev, t'[..k], t'[k]) {
      if k < |t| { assert t'[..k] == t[..k]; assert StepOk(ev, t[..k], t[k]); }
    }
  }

  /** The events of the lists below index n, highest priority first. */
  function Order(lists: seq<seq<Ptr>>, n: nat): seq<Ptr>
    requires n <= |lists|
  {
    if n == 0 then [] else lists[n - 1] + Order(lists, n - 1)
  }

  lemma OrderMembers(lists: seq<seq<Ptr>>, n: nat)
    requires n <= |lists|
    ensures forall p :: p in Order(lists, n) <==> exists i :: 0 <= i < n && p in lists[i]
  {
    forall p ensures p in Order(lists, n) <==> exists i :: 0 <= i < n && p in lists[i] { OrderHas(lists, n, p); }
  }

  lemma {:induction false} OrderHas(lists: seq<seq<Ptr>>, n: nat, p: Ptr)
    requires n <= |lists|
    ensures p in Order(lists, n) <==> exists i :: 0 <= i < n && p in lists[i]
  {
    if n > 0 {
      OrderHas(lists, n - 1, p);
      assert p in Order(lists, n) <==> p in lists[n - 1] || p in Order(lists, n - 1);
      if i :| 0 <= i < n && p in lists[i] {
        assert i == n - 1 || p in Order(lists, n - 1);
      }
    }
  }

  /** No event is visited twice, and none after one of a lower priority. */
  ghost predicate Sorted(ev: Events, visits: seq<Ptr>) {
    && NoDup(visits) && (forall a :: 0 <= a < |visits| ==> visits[a] in ev)
    && forall a, b :: 0 <= a < b < |visits| ==> ev[visits[a]].priority >= ev[visits[b]].priority
  }

  predicate PendingBelow(ev: Events, p: Ptr, n: int) { p in ev && ev[p].pending && PriorityIndex(ev[p].priority) < n }

  lemma {:induction false} OrderSorted(ev: Events, heads: seq<Ptr>, lists: seq<seq<Ptr>>, n: nat)
    requires Listed(ev, heads, lists) && n <= PRIORITY_SIZE
    ensures Sorted(ev, Order(lists, n))
    ensures forall p :: p in Order(lists, n) ==> PendingBelow(ev, p, n)
  {
    if n > 0 {
      var l, o := lists[n - 1], Order(lists, n - 1);
      assert Order(lists, n) == l + o && NoDup(l);
      assert forall p :: p in l ==> p in ev && ev[p].pending && PriorityIndex(ev[p].priority) == n - 1;
      hide Order, Sorted, NoDup, Listed;
      OrderSorted(ev, heads, lists, n - 1);
      SortedJoin(ev, l, o, n - 1);
      forall p | p in l + o ensures PendingBelow(ev, p, n) { assert p in l || PendingBelow(ev, p, n - 1); }
    }
  }

  lemma SortedJoin(ev: Events, l: seq<Ptr>, o: seq<Ptr>, n: int)
    requires NoDup(l) && Sorted(ev, o)
    requires forall p :: p in l ==> p in ev && PriorityIndex(ev[p].priority) == n
    requires forall p :: p in o ==> PendingBelow(ev, p, n)
    ensures Sorted(ev, l + o)
  {
    var s := l + o;
    forall a, b | 0 <= a < b < |s| ensures s[a] in ev && s[b] in ev && s[a] != s[b] && ev[s[a]].priority >= ev[s[b]].priority {
      if b < |l| {
        assert s[a] == l[a] && s[b] == l[b];
      } else if a >= |l| {
        assert s[a] == o[a - |l|] && s[b] == o[b - |l|];
      } else {
        assert s[a] in l && s[b] in o;
        assert PendingBelow(ev, s[b], n);
      }
    }
  }

  // ---- the events still to be visited

  predicate IsPending(ev: Events, p: Ptr) { p in ev && ev[p].pending }

  predicate IsDoomed(ev: Events, p: Ptr) { p in ev && ev[p].destroy }

  /** todo holds exactly the pending events, and only they may be marked for destruction. */
  ghost predicate Waiting(ev: Events, todo: seq<Ptr>) {
    && NoDup(todo)
    && (forall p :: p in todo <==> IsPending(ev, p))
    && (forall p :: IsDoomed(ev, p) ==> IsPending(ev, p))
  }

  /** p is still to be visited: it was pending at the start, and it is active unless a callback has deleted it. */
  ghost predicate Tracked(ev0: Events, t: seq<Step>, ev: Events, p: Ptr) {
    && p in ev0 && ev0[p].pending && p in ev && ev[p].priority == ev0[p].priority
    && Freed(p) !in t && (ev[p].active <==> ev0[p].active && Deleted(p) !in t)
  }

  /** The steps t, from the events ev0 to the events ev, have left the events of todo to be visited. */
  ghost predicate Midway(ev0: Events, t: seq<Step>, ev: Events, todo: seq<Ptr>) {
    && Good(ev0, t) && ev.Keys == AllocatedAfter(ev0.Keys, t) && Waiting(ev, todo)
    && (forall p :: p in todo ==> Tracked(ev0, t, ev, p))
  }

  lemma InAppend(t: seq<Step>, s: Step, x: Step)
    ensures x in t + [s] <==> x in t || x == s
  {
  }

  /** A step that changes what it says of its own event only. */
  lemma TrackedStep(ev0: Events, t: seq<Step>, ev: Events, s: Step, ev': Events, p: Ptr)
    requires Tracked(ev0, t, ev, p) && p in ev' && ev'[p].priority == ev[p].priority
    requires s != Freed(p)
    requires ev'[p].active == (ev[p].active && s != Deleted(p))
    ensures Tracked(ev0, t + [s], ev', p)
  {
    InAppend(t, s, Freed(p));
    InAppend(t, s, Deleted(p));
  }

  /** Midway, one step later. */
  lemma MidwayStep(ev0: Events, t: seq<Step>, ev: Events, todo: seq<Ptr>, s: Step, ev': Events, todo': seq<Ptr>)
    requires Midway(ev0, t, ev, todo) && StepOk(ev0, t, s) && Waiting(ev', todo')
    requires ev'.Keys == if s.Added? then ev.Keys + {s.p} else if s.Freed? then ev.Keys - {s.p} else ev.Keys
    requires forall p :: p in todo' ==> p in todo && s != Freed(p) && StaysTracked(ev, s, ev', p)
    ensures Midway(ev0, t + [s], ev', todo')
    ensures Visits(t + [s]) == Visits(t) + if s.Invoked? || s.Skipped? then [s.p] else []
  {
    Append(ev0, t, s);
    hide Good, AllocatedAfter, Visits, StepOk, NoDup, Tracked, Waiting;
    forall p | p in todo' ensures Tracked(ev0, t + [s], ev', p) {
      TrackedStep(ev0, t, ev, s, ev', p);
    }
  }

  predicate StaysTracked(ev: Events, s: Step, ev': Events, p: Ptr) {
    p in ev && p in ev' && ev'[p].priority == ev[p].priority && ev'[p].active == (ev[p].active && s != Deleted(p))
  }

  lemma WaitingSame(ev: Events, todo: seq<Ptr>, ev': Events)
    requires Waiting(ev, todo)
    requires forall p :: IsPending(ev', p) <==> IsPending(ev, p)
    requires forall p :: IsDoomed(ev', p) ==> IsDoomed(ev, p) || IsPending(ev, p)
    ensures Waiting(ev', todo)
  {
    hide NoDup;
  }

  /** An effective deletion: htimer_del or hidle_del on an active event. */
  lemma DeletedKept(ev0: Events, t: seq<Step>, ev: Events, todo: seq<Ptr>, p: Ptr)
    requires Midway(ev0, t, ev, todo) && p in ev && ev[p].active && ev[p].pending
    ensures Midway(ev0, t + [Deleted(p)], ev[p := ev[p].(destroy := true, active := false)], todo)
    ensures Visits(t + [Deleted(p)]) == Visits(t)
  {
    hide Good, AllocatedAfter, Visits, NoDup, Tracked;
    var ev' := ev[p := ev[p].(destroy := true, active := false)];
    WaitingSame(ev, todo, ev');
    forall q | q in todo ensures StaysTracked(ev, Deleted(p), ev', q) { assert IsPending(ev, q); }
    MidwayStep(ev0, t, ev, todo, Deleted(p), ev', todo);
  }

  lemma DeletedFreed(ev0: Events, t: seq<Step>, ev: Events, todo: seq<Ptr>, p: Ptr)
    requires Midway(ev0, t, ev, todo) && p in ev && !ev[p].pending
    ensures Midway(ev0, t + [Deleted(p)] + [Freed(p)], ev - {p}, todo)
    ensures Visits(t + [Deleted(p)] + [Freed(p)]) == Visits(t)
  {
    hide Good, AllocatedAfter, Visits, NoDup, Tracked;
    assert p !in todo by { assert !IsPending(ev, p); }
    forall q | q in todo ensures StaysTracked(ev, Deleted(p), ev, q) && StaysTracked(ev, Freed(p), ev - {p}, q) { assert IsPending(ev, q); }
    MidwayStep(ev0, t, ev, todo, Deleted(p), ev, todo);
    WaitingSame(ev, todo, ev - {p});
    MidwayStep(ev0, t + [Deleted(p)], ev, todo, Freed(p), ev - {p}, todo);
  }

  lemma AddedNew(ev0: Events, t: seq<Step>, ev: Events, todo: seq<Ptr>, p: Ptr, e: Event)
    requires Midway(ev0, t, ev, todo) && p !in ev && !e.pending && !e.destroy
    ensures Midway(ev0, t + [Added(p)], ev[p := e], todo)
    ensures Visits(t + [Added(p)]) == Visits(t)
  {
    hide Good, AllocatedAfter, Visits, NoDup, Tracked;
    WaitingSame(ev, todo, ev[p := e]);
    forall q | q in todo ensures StaysTracked(ev, Added(p), ev[p := e], q) { assert IsPending(ev, q); }
    MidwayStep(ev0, t, ev, todo, Added(p), ev[p := e], todo);
  }

  /** The event at the head of todo is visited: called if it is active, skipped otherwise. */
  lemma Visited(ev0: Events, t: seq<Step>, ev: Events, todo: seq<Ptr>)
    requires Midway(ev0, t, ev, todo) && todo != []
    ensures todo[0] in ev
    ensures var s := if ev[todo[0]].active then Invoked(todo[0]) else Skipped(todo[0]);
      Midway(ev0, t + [s], ev, todo) && Visits(t + [s]) == Visits(t) + [todo[0]]
  {
    hide Good, AllocatedAfter, Visits, NoDup;
    assert todo[0] in todo;
    assert Tracked(ev0, t, ev, todo[0]);
    var s := if ev[todo[0]].active then Invoked(todo[0]) else Skipped(todo[0]);
    assert StepOk(ev0, t, s);
    hide Tracked, StepOk;
    forall q | q in todo ensures StaysTracked(ev, s, ev, q) { assert IsPending(ev, q); }
    MidwayStep(ev0, t, ev, todo, s, ev, todo);
  }

  /** The event leaves the list, and is freed if it is marked for destruction. */
  lemma Left(ev0: Events, t: seq<Step>, ev: Events, todo: seq<Ptr>)
    requires Midway(ev0, t, ev, todo) && todo != []
    ensures todo[0] in ev
    ensures var p := todo[0];
      if ev[p].destroy then Midway(ev0, t + [Freed(p)], ev - {p}, todo[1..]) && Visits(t + [Freed(p)]) == Visits(t)
      else Midway(ev0, t, ev[p := ev[p].(pending := false)], todo[1..])
  {
    assert todo[0] in todo && IsPending(ev, todo[0]);
    HeadOff(todo);
    hide Midway, NoDup;
    if ev[todo[0]].destroy {
      LeftFreed(ev0, t, ev, todo, todo[0], todo[1..]);
    } else {
      LeftKept(ev0, t, ev, todo, todo[0], todo[1..]);
    }
  }

  /** p is no longer pending in ev'; the rest of todo still is. */
  lemma WaitingLess(ev: Events, todo: seq<Ptr>, p: Ptr, ev': Events, rest: seq<Ptr>)
    requires Waiting(ev, todo) && NoDup(rest) && forall q :: q in rest <==> q in todo && q != p
    requires forall q :: IsPending(ev', q) <==> IsPending(ev, q) && q != p
    requires forall q :: IsDoomed(ev', q) ==> IsDoomed(ev, q) && q != p
    ensures Waiting(ev', rest)
  {
    hide NoDup;
  }

  lemma LeftFreed(ev0: Events, t: seq<Step>, ev: Events, todo: seq<Ptr>, p: Ptr, rest: seq<Ptr>)
    requires Midway(ev0, t, ev, todo) && p in ev && ev[p].pending
    requires NoDup(rest) && forall q :: q in rest <==> q in todo && q != p
    ensures Midway(ev0, t + [Freed(p)], ev - {p}, rest) && Visits(t + [Freed(p)]) == Visits(t)
  {
    hide Good, AllocatedAfter, Visits, NoDup, Tracked;
    WaitingLess(ev, todo, p, ev - {p}, rest);
    forall q | q in rest ensures StaysTracked(ev, Freed(p), ev - {p}, q) { assert IsPending(ev, q); }
    MidwayStep(ev0, t, ev, todo, Freed(p), ev - {p}, rest);
  }

  lemma LeftKept(ev0: Events, t: seq<Step>, ev: Events, todo: seq<Ptr>, p: Ptr, rest: seq<Ptr>)
    requires Midway(ev0, t, ev, todo) && p in ev && !ev[p].destroy
    requires NoDup(rest) && forall q :: q in rest <==> q in todo && q != p
    ensures Midway(ev0, t, ev[p := ev[p].(pending := false)], rest)
  {
    hide Good, AllocatedAfter, Visits, NoDup;
    var ev' := ev[p := ev[p].(pending := false)];
    WaitingLess(ev, todo, p, ev', rest);
    forall q | q in rest ensures Tracked(ev0, t, ev', q) { assert Tracked(ev0, t, ev, q); }
  }

  lemma HeadOff(todo: seq<Ptr>)
    requires todo != [] && NoDup(todo)
    ensures NoDup(todo[1..]) && forall q :: q in todo[1..] <==> q in todo && q != todo[0]
  {
    var rest := todo[1..];
    assert todo == [todo[0]] + rest;
    forall i | 0 <= i < |rest| ensures rest[i] != todo[0] { assert rest[i] == todo[i + 1]; }
  }

  // ---- what a pass leaves of the events that were there at its start

  /**
    An event of the start is freed only when it was marked for destruction or a callback has deleted
    it; until then it keeps its kind, priority, repeat count and due time.
    */
  ghost predicate Followed(ev0: Events, due0: Keys, t: seq<Step>, ev: Events, due: Keys, p: Ptr)
    requires p in ev0
  {
    if Freed(p) in t then ev0[p].destroy || Deleted(p) in t
    else
      && p in ev && ev[p] == ev0[p].(active := ev[p].active, destroy := ev[p].destroy, pending := ev[p].pending, next := ev[p].next)
      && (ev[p].destroy <==> ev0[p].destroy || Deleted(p) in t)
      && (ev[p].active <==> ev0[p].active && Deleted(p) !in t)
      && (p in due0 ==> p in due && due[p] == due0[p])
  }

  ghost predicate Frame(ev0: Events, due0: Keys, t: seq<Step>, ev: Events, due: Keys) {
    forall p :: p in ev0 ==> Followed(ev0, due0, t, ev, due, p)
  }

  lemma FrameStart(ev: Events, due: Keys)
    ensures Frame(ev, due, [], ev, due)
  {
  }

  /** The step is not about p, and the event and due time of p stay. */
  lemma FollowedStep(ev0: Events, due0: Keys, t: seq<Step>, ev: Events, due: Keys, s: Step, ev': Events, due': Keys, p: Ptr)
    requires p in ev0 && Followed(ev0, due0, t, ev, due, p) && s != Deleted(p) && s != Freed(p)
    requires p in ev ==> p in ev' && ev'[p] == ev[p].(pending := ev'[p].pending, next := ev'[p].next)
    requires p in ev && p in due ==> p in due' && due'[p] == due[p]
    ensures Followed(ev0, due0, t + [s], ev', due', p)
  {
    InAppend(t, s, Freed(p));
    InAppend(t, s, Deleted(p));
  }

  /** A step that says nothing of deletion, with new events at addresses that were free. */
  lemma FrameStep(ev0: Events, due0: Keys, t: seq<Step>, ev: Events, due: Keys, s: Step, ev': Events, due': Keys)
    requires Frame(ev0, due0, t, ev, due) && !s.Deleted? && !s.Freed?
    requires forall p :: p in ev ==> p in ev' && ev'[p] == ev[p]
    requires forall p :: p in ev && p in due ==> p in due' && due'[p] == due[p]
    ensures Frame(ev0, due0, t + [s], ev', due')
  {
    hide Followed;
    forall p | p in ev0 ensures Followed(ev0, due0, t + [s], ev', due', p) {
      FollowedStep(ev0, due0, t, ev, due, s, ev', due', p);
    }
  }

  lemma FrameDeletedKept(ev0: Events, due0: Keys, t: seq<Step>, ev: Events, due: Keys, p: Ptr)
    requires Frame(ev0, due0, t, ev, due) && p in ev
    ensures Frame(ev0, due0, t + [Deleted(p)], ev[p := ev[p].(destroy := true, active := false)], due)
  {
    var ev' := ev[p := ev[p].(destroy := true, active := false)];
    forall q | q in ev0 ensures Followed(ev0, due0, t + [Deleted(p)], ev', due, q) {
      InAppend(t, Deleted(p), Freed(q));
      InAppend(t, Deleted(p), Deleted(q));
      assert Followed(ev0, due0, t, ev, due, q);
    }
  }

  /** The event at p is freed; it was marked for destruction, or its deletion is in the trace. */
  lemma FrameFreed(ev0: Events, due0: Keys, t: seq<Step>, ev: Events, due: Keys, p: Ptr)
    requires Frame(ev0, due0, t, ev, due) && p in ev && (ev[p].destroy || Deleted(p) in t)
    ensures Frame(ev0, due0, t + [Freed(p)], ev - {p}, due)
  {
    forall q | q in ev0 ensures Followed(ev0, due0, t + [Freed(p)], ev - {p}, due, q) {
      InAppend(t, Freed(p), Freed(q));
      InAppend(t, Freed(p), Deleted(q));
      assert Followed(ev0, due0, t, ev, due, q);
    }
  }

  lemma FrameDeletedFreed(ev0: Events, due0: Keys, t: seq<Step>, ev: Events, due: Keys, p: Ptr)
    requires Frame(ev0, due0, t, ev, due) && p in ev
    ensures Frame(ev0, due0, t + [Deleted(p)] + [Freed(p)], ev - {p}, due)
  {
    var ev' := ev[p := ev[p].(destroy := true, active := false)];
    FrameDeletedKept(ev0, due0, t, ev, due, p);
    hide Frame;
    FrameFreed(ev0, due0, t + [Deleted(p)], ev', due, p);
    assert ev' - {p} == ev - {p};
  }

  /** The event leaves its list. */
  lemma FrameLeft(ev0: Events, due0: Keys, t: seq<Step>, ev: Events, due: Keys, p: Ptr)
    requires Frame(ev0, due0, t, ev, due) && p in ev
    ensures Frame(ev0, due0, t, ev[p := ev[p].(pending := false)], due)
  {
    var ev' := ev[p := ev[p].(pending := false)];
    forall q | q in ev0 ensures Followed(ev0, due0, t, ev', due, q) {
      assert Followed(ev0, due0, t, ev, due, q);
    }
  }

  // ---- how often an event is called

  function Invocations(t: seq<Step>, p: Ptr): nat {
    if t == [] then 0
    else Invocations(t[..|t| - 1], p) + if t[|t| - 1] == Invoked(p) then 1 else 0
  }

  /** Calls are visits, and a visit of an active event that no callback deletes is a call. */
  lemma {:induction false} InvokedVisits(ev: Events, t: seq<Step>, p: Ptr)
    requires Good(ev, t) && NoDup(Visits(t))
    ensures Invocations(t, p) <= if p in Visits(t) then 1 else 0
    ensures p in ev && ev[p].active && Deleted(p) !in t ==> Invocations(t, p) == if p in Visits(t) then 1 else 0
    decreases |t|
  {
    if t != [] {
      var n := |t| - 1;
      var t', s := t[..n], t[n];
      assert StepOk(ev, t', s);
      assert Visits(t) == Visits(t') + if s.Invoked? || s.Skipped? then [s.p] else [];
      assert Invocations(t, p) == Invocations(t', p) + if s == Invoked(p) then 1 else 0;
      GoodPrefix(ev, t, n);
      hide Good, AllocatedAfter, Visits, Invocations;
      if s.Invoked? || s.Skipped? { NoDupLast(Visits(t'), s.p); } else { assert Visits(t) == Visits(t'); }
      hide NoDup;
      InvokedVisits(ev, t', p);
    }
  }

  lemma NoDupLast(s: seq<Ptr>, p: Ptr)
    requires NoDup(s + [p])
    ensures NoDup(s) && p !in s
  {
    var s' := s + [p];
    forall i, j | 0 <= i < j < |s| ensures s[i] != s[j] { assert s'[i] != s'[j]; }
    forall i | 0 <= i < |s| ensures s[i] != p { assert s'[i] != s'[|s|]; }
  }

  lemma GoodPrefix(ev: Events, t: seq<Step>, n: nat)
    requires Good(ev, t) && n <= |t|
    ensures Good(ev, t[..n])
  {
    var t' := t[..n];
    forall k | 0 <= k < |t'| ensures StepOk(ev, t'[..k], t'[k]) {
      assert t'[..k] == t[..k];
      assert StepOk(ev, t[..k], t[k]);
    }
  }

  /** One dispatch pass calls an event at most once, and exactly when it was pending if it stays active. */
  lemma CalledOnce(ev: Events, t: seq<Step>, p: Ptr)
    requires Good(ev, t) && NoDup(Visits(t)) && p in ev && (p in Visits(t) <==> ev[p].pending)
    ensures Invocations(t, p) <= if ev[p].pending then 1 else 0
    ensures ev[p].active && Deleted(p) !in t ==> Invocations(t, p) == if ev[p].pending then 1 else 0
  {
    InvokedVisits(ev, t, p);
  }

  // ---- a timer in one round of the loop

  /**
    What a round that ends with the dispatch pass t does to the timer x of address p: it is called at
    most when it is due, and exactly then if no callback deletes it; it is freed exactly when its repeat
    count has run out or a callback has deleted it.
    */
  ghost predicate Told(x: Timer, k: Tick, t: seq<Step>, p: Ptr)
    requires x.e.kind.Timeout? ==> x.e.kind.ms >= 1
  {
    var y := Pass(x, k);
    && Invocations(t, p) <= y.fires - x.fires
    && (Deleted(p) !in t ==> Invocations(t, p) == y.fires - x.fires)
    && (Freed(p) in t <==> y.e.destroy || Deleted(p) in t)
  }

  /** The fields of the event at p, but for its place in a list, are those of the timer x. */
  ghost predicate Holds(x: Timer, p: Ptr, ev: Events, due: Keys) {
    p in ev && p in due && ev[p] == x.e.(next := ev[p].next) && due[p] == x.due
  }

  /** A round from ev to ev', for the timer of address p. */
  ghost predicate TimerRound(ev: Events, due: Keys, k: Tick, t: seq<Step>, ev': Events, due': Keys, p: Ptr)
    requires p in ev && p in due && WellFormed(ev[p])
  {
    var x := Timer(ev[p], due[p], 0);
    Told(x, k, t, p) && (Freed(p) !in t ==> Holds(Pass(x, k), p, ev', due'))
  }

  /** What the timer passes of a round do to a timer, before the dispatch pass. */
  ghost predicate Readied(e: Event, d: int, k: Tick, e': Event, d': int)
    requires WellFormed(e)
  {
    var x := Pass(Timer(e, d, 0), k);
    e' == x.e.(pending := e.pending || x.fires == 1, next := e'.next) && d' == x.due
  }

  lemma RoundOver(ev0: Events, due0: Keys, k: Tick, ev: Events, due: Keys, t: seq<Step>, ev': Events, due': Keys, p: Ptr)
    requires p in ev0 && p in due0 && WellFormed(ev0[p]) && !ev0[p].pending && !ev0[p].destroy
    requires p in ev && p in due && Readied(ev0[p], due0[p], k, ev[p], due[p])
    requires Good(ev, t) && NoDup(Visits(t)) && (p in Visits(t) <==> ev[p].pending)
    requires Frame(ev, due, t, ev', due') && forall q :: q in ev' ==> !ev'[q].pending && !ev'[q].destroy
    ensures TimerRound(ev0, due0, k, t, ev', due', p)
  {
    CalledOnce(ev, t, p);
    hide Good, Visits, Invocations, NoDup;
    assert Followed(ev, due, t, ev', due', p);
  }

  // ---- an idle in one round of the loop

  /**
    What a round that ends with the dispatch pass t does to the idle e of address p. In a quiet round it
    is visited, called unless a callback has deleted it, and counted down; in another round it is left
    alone. It is freed exactly when its repeat count has run out or a callback has deleted it.
    */
  ghost predicate IdleRound(e: Event, quiet: bool, t: seq<Step>, ev': Events, p: Ptr) {
    var e' := if quiet then Ticked(e) else e;
    && (p in Visits(t) <==> quiet)
    && Invocations(t, p) <= (if quiet then 1 else 0)
    && (Deleted(p) !in t ==> Invocations(t, p) == if quiet then 1 else 0)
    && (Freed(p) in t <==> e'.destroy || Deleted(p) in t)
    && (Freed(p) !in t ==> p in ev' && ev'[p] == e'.(next := ev'[p].next))
  }

  lemma IdleOver(e: Event, quiet: bool, ev: Events, due: Keys, t: seq<Step>, ev': Events, due': Keys, p: Ptr)
    requires WellFormed(e) && !e.pending && !e.destroy
    requires p in ev && if quiet then Fired(e, ev[p]) else ev[p] == e
    requires Good(ev, t) && NoDup(Visits(t)) && (p in Visits(t) <==> ev[p].pending)
    requires Frame(ev, due, t, ev', due') && forall q :: q in ev' ==> !ev'[q].pending && !ev'[q].destroy
    ensures IdleRound(e, quiet, t, ev', p)
  {
    CalledOnce(ev, t, p);
    hide Good, Visits, Invocations, NoDup;
    assert Followed(ev, due, t, ev', due', p);
  }
}
