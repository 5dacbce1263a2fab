/** event/hloop.c: timers, idles and the dispatch of pending events. */
module Loop {

  import opened Basics
  import opened HeapShape
  import opened LoopModel
  import opened Trace
  import Heap

  class Loop {
    const timers: Heap.Heap
    const realtimers: Heap.Heap
    var events: Events // the allocated events
    var due: Keys // their next_timeout fields
    var idles: seq<Ptr>
    var heads: seq<Ptr> // pendings[]
    var npendings: nat
    var ntimers: int
    var nidles: int
    ghost var lists: seq<seq<Ptr>> // the pending lists

    /** Timers and idles that are not marked for destruction are in their heap or list, and nothing else is. */
    ghost predicate Scheduled()
      reads this, timers, realtimers
    {
      && timers != realtimers && timers.Valid(due) && realtimers.Valid(due)
      && Members(events, due, timers.slots, realtimers.slots, idles)
      && ntimers == |timers.slots| + |realtimers.slots| && nidles == |idles|
    }

    /** The state of the loop between two dispatch passes. */
    ghost predicate Valid()
      reads this, timers, realtimers
    {
      && Scheduled()
      && Listed(events, heads, lists) && npendings == Total(lists)
    }

    /** hloop_init */
    constructor ()
      ensures Valid() && fresh(timers) && fresh(realtimers) && events == map[]
    {
      timers := new Heap.Heap();
      realtimers := new Heap.Heap();
      events, due, idles := map[], map[], [];
      heads, npendings, ntimers, nidles := seq(PRIORITY_SIZE, _ => 0), 0, 0, 0;
      lists := seq(PRIORITY_SIZE, _ => []);
      new;
      TotalNone(lists);
    }

    /** __htimer_del */
    method TimerUnlink(p: Ptr)
      requires Scheduled() && p in events && !events[p].kind.Idle?
      modifies this`events, this`ntimers, timers, realtimers
      ensures Scheduled() && events == old(events)[p := old(events)[p].(destroy := true)]
    {
      if events[p].destroy { assert events == events[p := events[p].(destroy := true)]; return; }
      Where(events, due, timers.slots, realtimers.slots, idles, p);
      hide HeapOrdered, Linked, Members;
      if events[p].kind.Timeout? {
        timers.Remove(p, due);
      } else if events[p].kind.Period? {
        realtimers.Remove(p, due);
      }
      ntimers := ntimers - 1;
      events := events[p := events[p].(destroy := true)];
      Destroyed(old(events), due, old(timers.slots), old(realtimers.slots), idles, p, timers.slots, realtimers.slots, idles);
    }

    /** __hidle_del */
    method IdleUnlink(p: Ptr)
      requires Scheduled() && p in events && events[p].kind.Idle?
      modifies this`events, this`nidles, this`idles
      ensures Scheduled() && events == old(events)[p := old(events)[p].(destroy := true)]
    {
      if events[p].destroy { assert events == events[p := events[p].(destroy := true)]; return; }
      Where(events, due, timers.slots, realtimers.slots, idles, p);
      hide HeapOrdered, Linked, Members;
      ListDel(idles, p);
      events := events[p := events[p].(destroy := true)];
      idles := Without(idles, p);
      nidles := nidles - 1;
      Destroyed(old(events), due, timers.slots, realtimers.slots, old(idles), p, timers.slots, realtimers.slots, idles);
    }

    /** htimer_del and hidle_del: a pending event is kept until it has been dispatched. */
    method Del(p: Ptr)
      requires Scheduled() && p in events
      modifies this`events, this`ntimers, this`nidles, this`idles, timers, realtimers
      ensures Scheduled()
      ensures var e := old(events)[p];
        events == if !e.active then old(events)
                  else if e.pending then old(events)[p := e.(destroy := true, active := false)]
                  else old(events) - {p}
    {
      hide HeapOrdered, Linked, Members, Scheduled;
      if !events[p].active { return; }
      if events[p].kind.Idle? {
        IdleUnlink(p);
      } else {
        TimerUnlink(p);
      }
      EventDel(p);
    }

    /** EVENT_DEL, on an event marked for destruction. */
    method EventDel(p: Ptr)
      requires Scheduled() && p in events && events[p].destroy
      modifies this`events
      ensures Scheduled()
      ensures events == if old(events)[p].pending then old(events)[p := old(events)[p].(active := false)] else old(events) - {p}
    {
      Deactivated(events, due, timers.slots, realtimers.slots, idles, p);
      hide HeapOrdered, Linked, Members;
      events := events[p := events[p].(active := false)];
      if !events[p].pending {
        events := events - {p};
      }
    }

    /** htimer_add: p is the address the allocator returns. */
    method TimerAdd(p: Ptr, ms: nat, repeat: nat, now: nat) returns (r: Ptr)
      requires Scheduled() && p != 0 && p !in events && repeat <= INFINITE
      modifies this`events, this`due, this`ntimers, timers
      ensures Scheduled() && r == (if ms == 0 then 0 else p)
      ensures ms != 0 ==> events == old(events)[p := Event(Timeout(ms), 5, repeat, true, false, false, 0)]
      ensures ms != 0 ==> due == old(due)[p := FirstDue(now, ms)]
      ensures ms == 0 ==> events == old(events) && due == old(due)
    {
      if ms == 0 { return 0; }
      DueChanged(timers.slots, due, p, FirstDue(now, ms));
      DueChanged(realtimers.slots, due, p, FirstDue(now, ms));
      events := events[p := Event(Timeout(ms), HIGHEST_PRIORITY, repeat, true, false, false, 0)];
      due := due[p := FirstDue(now, ms)];
      Where(old(events), old(due), timers.slots, realtimers.slots, idles, p);
      hide HeapOrdered, Linked, Members;
      NewNode(timers, p);
      timers.Insert(p, due);
      Created(old(events), old(due), old(timers.slots), realtimers.slots, idles, p, events[p], due[p], timers.slots, realtimers.slots, idles);
      ntimers := ntimers + 1;
      r := p;
    }

    /** htimer_add_period: next is the due time that cron_next_timeout gives. */
    method PeriodAdd(p: Ptr, when: Cron, repeat: nat, next: int) returns (r: Ptr)
      requires Scheduled() && p != 0 && p !in events && repeat <= INFINITE
      modifies this`events, this`due, this`ntimers, realtimers
      ensures Scheduled() && r == (if InRange(when) then p else 0)
      ensures InRange(when) ==> events == old(events)[p := Event(Period, 3, repeat, true, false, false, 0)]
      ensures InRange(when) ==> due == old(due)[p := next]
      ensures !InRange(when) ==> events == old(events) && due == old(due)
    {
      if when.minute > 59 || when.hour > 23 || when.day > 31 || when.week > 6 || when.month > 12 { return 0; }
      DueChanged(timers.slots, due, p, next);
      DueChanged(realtimers.slots, due, p, next);
      events := events[p := Event(Period, HIGH_PRIORITY, repeat, true, false, false, 0)];
      due := due[p := next];
      Where(old(events), old(due), timers.slots, realtimers.slots, idles, p);
      hide HeapOrdered, Linked, Members;
      NewNode(realtimers, p);
      realtimers.Insert(p, due);
      Created(old(events), old(due), timers.slots, old(realtimers.slots), idles, p, events[p], due[p], timers.slots, realtimers.slots, idles);
      ntimers := ntimers + 1;
      r := p;
    }

    /** hidle_add */
    method IdleAdd(p: Ptr, repeat: nat)
      requires Scheduled() && p != 0 && p !in events && repeat <= INFINITE
      modifies this`events, this`idles, this`nidles
      ensures Scheduled()
      ensures events == old(events)[p := Event(Idle, -5, repeat, true, false, false, 0)]
    {
      Where(events, due, timers.slots, realtimers.slots, idles, p);
      hide HeapOrdered, Linked, Members;
      events := events[p := Event(Idle, LOWEST_PRIORITY, repeat, true, false, false, 0)];
      idles := [p] + idles;
      nidles := nidles + 1;
      CreatedIdle(old(events), due, timers.slots, realtimers.slots, old(idles), p, events[p]);
    }

    /** EVENT_PENDING */
    method EventPending(ev: Ptr)
      requires Listed(events, heads, lists) && npendings == Total(lists)
      requires ev != 0 && ev in events && WellFormed(events[ev])
      modifies this`events, this`heads, this`lists, this`npendings
      ensures Listed(events, heads, lists) && npendings == Total(lists)
      ensures var e := old(events[ev]);
        events == old(events)[ev := e.(pending := true, next := if e.pending then e.next else old(heads)[PriorityIndex(e.priority)])]
    {
      assert |heads| == |lists| == PRIORITY_SIZE;
      assert events == events[ev := events[ev]];
      hide Listed, Total;
      if !events[ev].pending {
        var i := PriorityIndex(events[ev].priority);
        ghost var e := events[ev].(pending := true, next := heads[i]);
        Push(events, heads, lists, ev, e);
        TotalPush(lists, i, ev);
        npendings := npendings + 1;
        events := events[ev := events[ev].(pending := true)];
        events := events[ev := events[ev].(next := heads[i])];
        assert events == old(events)[ev := e];
        heads := heads[i := ev];
        lists := lists[i := [ev] + lists[i]];
      }
    }

    /** __hloop_process_timers, a timer that is due again: out of the heap, a later due time, back in. */
    method Rearm(h: Heap.Heap, timer: Ptr, timeout: int, cron: int)
      requires Scheduled() && (h == timers || h == realtimers)
      requires timer in h.slots && timer == h.root && timer in events && timer in due
      modifies this`due, h
      ensures Scheduled() && (forall p :: p in h.slots <==> p in old(h.slots))
      ensures due == old(due)[timer := Rearmed(events[timer].kind, old(due)[timer], timeout, cron)]
    {
      Where(events, due, timers.slots, realtimers.slots, idles, timer);
      ghost var other := if h == timers then realtimers else timers;
      hide Linked, Members;
      h.Dequeue(due);
      var d := due[timer];
      if events[timer].kind.Timeout? {
        d := Advance(d, events[timer].kind.ms * 1000, timeout);
      } else if events[timer].kind.Period? {
        d := cron * 1000000;
      }
      DueChanged(h.slots, due, timer, d);
      DueChanged(other.slots, due, timer, d);
      hide HeapOrdered;
      due := due[timer := d];
      h.Insert(timer, due);
      SameMembers(events, old(due), due, old(timers.slots), old(realtimers.slots), idles, timers.slots, realtimers.slots);
    }

    /** The repeat count of a timer or idle that fires. */
    method CountDown(p: Ptr)
      requires Scheduled() && p in events && WellFormed(events[p])
      modifies this`events
      ensures Scheduled() && events == old(events)[p := old(events)[p].(repeat := Dec(old(events)[p].repeat))]
    {
      hide HeapOrdered, Linked, Members;
      RepeatChanged(events, due, timers.slots, realtimers.slots, idles, p, Dec(events[p].repeat));
      if events[p].repeat != INFINITE {
        events := events[p := events[p].(repeat := Dec(events[p].repeat))];
      } else {
        assert events == events[p := events[p].(repeat := Dec(events[p].repeat))];
      }
    }

    /** The repeat count of a due timer goes down, and the timer leaves the heap or is put back. */
    method Tick(h: Heap.Heap, timer: Ptr, timeout: int, cron: int)
      requires Scheduled() && (h == timers || h == realtimers)
      requires timer in h.slots && timer == h.root && timer in events && !events[timer].kind.Idle? && !events[timer].destroy
      modifies this`events, this`due, this`ntimers, timers, realtimers
      ensures Scheduled()
      ensures timer in events && events == old(events)[timer := Ticked(old(events)[timer])]
      ensures timer in due && due == if events[timer].destroy then old(due)
                     else old(due)[timer := Rearmed(events[timer].kind, old(due)[timer], timeout, cron)]
    {
      Where(events, due, timers.slots, realtimers.slots, idles, timer);
      hide HeapOrdered, Linked, Members, Scheduled;
      CountDown(timer);
      if events[timer].repeat == 0 {
        TimerUnlink(timer);
      } else {
        Rearm(h, timer, timeout, cron);
      }
    }

    /** One turn of the loop of __hloop_process_timers, the root of the heap being due. */
    method FireTimer(h: Heap.Heap, timeout: int, cron: int) returns (timer: Ptr)
      requires Valid() && (h == timers || h == realtimers)
      requires h.root != 0 && h.root in due && due[h.root] <= timeout
      modifies this, timers, realtimers
      ensures Valid()
      ensures timer == old(h.root) && timer in old(h.slots) && timer in old(events) && timer in events
      ensures Fired(old(events)[timer], events[timer]) && events == old(events)[timer := events[timer]]
      ensures timer in due && due == if events[timer].destroy then old(due)
                     else old(due)[timer := Rearmed(events[timer].kind, old(due)[timer], timeout, cron)]
      ensures idles == old(idles)
    {
      hide HeapOrdered, Linked, Members, Total, Listed;
      timer := h.root;
      RootWhere(events, due, timers.slots, realtimers.slots, idles, h.mem, h.root, h.slots);
      RelistedOne(events, heads, lists, timer, Ticked(events[timer]));
      Tick(h, timer, timeout, cron);
      ghost var was := events;
      EventPending(timer);
      Relinked(was, due, timers.slots, realtimers.slots, idles, timer, true, events[timer].next);
    }

    /** __hloop_process_timers: cron tells when a period timer that fires is due again. */
    method ProcessHeap(h: Heap.Heap, timeout: int, cron: Ptr -> int) returns (ntimers_: nat)
      requires Valid() && (h == timers || h == realtimers)
      requires forall p :: p in h.slots && p in events && events[p].kind.Period? ==> cron(p) * 1000000 > timeout
      modifies this, timers, realtimers
      ensures Valid() && idles == old(idles)
      ensures PassDone(old(events), old(due), DueSet(old(h.slots), old(due), timeout), {}, events, due, timeout, cron)
      ensures forall p :: p in h.slots ==> p in due && due[p] > timeout
      ensures ntimers_ == |DueSet(old(h.slots), old(due), timeout)|
    {
      hide HeapOrdered, Linked, Members, Total, Listed, PassDone, DueSet;
      ntimers_ := 0;
      ghost var wall := h == realtimers;
      ghost var fired := DueSet(h.slots, due, timeout);
      ghost var todo := fired;
      PassBegins(events, due, timers.slots, realtimers.slots, idles, wall, timeout, cron);
      while h.root != 0
        invariant Valid() && idles == old(idles) && todo <= fired && ntimers_ == |fired| - |todo|
        invariant PassDone(old(events), old(due), fired, todo, events, due, timeout, cron)
        decreases todo
      {
        var timer := h.root;
        RootWhere(events, due, timers.slots, realtimers.slots, idles, h.mem, h.root, h.slots);
        if due[timer] > timeout { break; }
        RootTodo(old(events), old(due), old(timers.slots), old(realtimers.slots), old(idles), fired, todo,
          events, due, timers.slots, realtimers.slots, idles, wall, timer, timeout, cron);
        ghost var ev, d := events, due;
        timer := FireTimer(h, timeout, cron(timer));
        PassStep(old(events), old(due), fired, todo, ev, d, timer, events, due, timeout, cron);
        todo := todo - {timer};
        ntimers_ := ntimers_ + 1;
      }
      PassEnds(old(events), old(due), old(timers.slots), old(realtimers.slots), old(idles), fired, todo,
        events, due, timers.slots, realtimers.slots, idles, wall, h.mem, h.root, timeout, cron);
    }

    /** One turn of the loop of hloop_process_idles. */
    method FireIdle(idle: Ptr)
      requires Valid() && idle in idles && idle in events && events[idle].kind.Idle? && !events[idle].destroy
      modifies this
      ensures Valid() && idle in events && due == old(due)
      ensures Fired(old(events)[idle], events[idle]) && events == old(events)[idle := events[idle]]
    {
      hide HeapOrdered, Linked, Members, Total, Listed;
      Where(events, due, timers.slots, realtimers.slots, idles, idle);
      RelistedOne(events, heads, lists, idle, Ticked(events[idle]));
      CountDown(idle);
      if events[idle].repeat == 0 {
        IdleUnlink(idle);
      }
      assert events == old(events)[idle := Ticked(old(events)[idle])];
      ghost var was := events;
      EventPending(idle);
      Relinked(was, due, timers.slots, realtimers.slots, idles, idle, true, events[idle].next);
    }

    /** hloop_process_idles: every idle fires once, and nothing else changes. */
    method ProcessIdles() returns (nidles_: nat)
      requires Valid()
      modifies this
      ensures Valid() && due == old(due) && nidles_ == |old(idles)|
      ensures IdlesFired(old(events), events, old(idles))
    {
      hide HeapOrdered, Linked, Members, Total, Listed;
      nidles_ := 0;
      var node := idles;
      AllIdle(events, due, timers.slots, realtimers.slots, idles);
      while node != []
        invariant Valid() && due == old(due) && nidles_ <= |old(idles)| && node == old(idles)[nidles_..]
        invariant IdlesFired(old(events), events, old(idles)[..nidles_])
      {
        var idle := node[0];
        node := node[1..];
        NextIdle(old(events), events, old(idles), nidles_);
        Where(events, due, timers.slots, realtimers.slots, idles, idle);
        ghost var was := events;
        FireIdle(idle);
        IdleFired(old(events), was, events, old(idles), nidles_);
        nidles_ := nidles_ + 1;
      }
      assert old(idles)[..nidles_] == old(idles);
    }

    /** One call that a callback makes. A deletion of an event that is gone, or an allocation at a used address, cannot happen. */
    method Act(a: Action, ghost ev0: Events, ghost due0: Keys, t: seq<Step>, ghost todo: seq<Ptr>) returns (t': seq<Step>)
      requires Scheduled() && Midway(ev0, t, events, todo) && Frame(ev0, due0, t, events, due)
      modifies this, timers, realtimers
      ensures Scheduled() && Midway(ev0, t', events, todo) && Frame(ev0, due0, t', events, due) && Visits(t') == Visits(t)
      ensures SameLinks(old(events), events, todo) && heads == old(heads) && lists == old(lists)
    {
      hide HeapOrdered, Linked, Members, Midway, Visits, Frame;
      t' := t;
      Zero(events, due, timers.slots, realtimers.slots, idles);
      Links(ev0, t, events, todo);
      match a {
        case Del(p) =>
          if p in events && events[p].active {
            if events[p].pending {
              DeletedKept(ev0, t, events, todo, p);
              FrameDeletedKept(ev0, due0, t, events, due, p);
              t' := t + [Deleted(p)];
            } else {
              DeletedFreed(ev0, t, events, todo, p);
              FrameDeletedFreed(ev0, due0, t, events, due, p);
              t' := t + [Deleted(p)] + [Freed(p)];
            }
            Del(p);
          }
        case AddTimer(p, ms, repeat, now) =>
          if p != 0 && p !in events && repeat <= INFINITE && ms != 0 {
            var _ := TimerAdd(p, ms, repeat, now);
            AddedNew(ev0, t, old(events), todo, p, events[p]);
            FrameStep(ev0, due0, t, old(events), old(due), Added(p), events, due);
            t' := t + [Added(p)];
          }
        case AddPeriod(p, when, repeat, next) =>
          if p != 0 && p !in events && repeat <= INFINITE && InRange(when) {
            var _ := PeriodAdd(p, when, repeat, next);
            AddedNew(ev0, t, old(events), todo, p, events[p]);
            FrameStep(ev0, due0, t, old(events), old(due), Added(p), events, due);
            t' := t + [Added(p)];
          }
        case AddIdle(p, repeat) =>
          if p != 0 && p !in events && repeat <= INFINITE {
            IdleAdd(p, repeat);
            AddedNew(ev0, t, old(events), todo, p, events[p]);
            FrameStep(ev0, due0, t, old(events), old(due), Added(p), events, due);
            t' := t + [Added(p)];
          }
      }
    }

    /** A callback: any calls, in any order. */
    method RunCallback(actions: seq<Action>, ghost ev0: Events, ghost due0: Keys, t: seq<Step>, ghost todo: seq<Ptr>) returns (t': seq<Step>)
      requires Scheduled() && Midway(ev0, t, events, todo) && Frame(ev0, due0, t, events, due)
      modifies this, timers, realtimers
      ensures Scheduled() && Midway(ev0, t', events, todo) && Frame(ev0, due0, t', events, due) && Visits(t') == Visits(t)
      ensures SameLinks(old(events), events, todo) && heads == old(heads) && lists == old(lists)
    {
      Links(ev0, t, events, todo);
      hide HeapOrdered, Linked, Members, Midway, Visits, Frame;
      t' := t;
      for k := 0 to |actions|
        invariant Scheduled() && Midway(ev0, t', events, todo) && Frame(ev0, due0, t', events, due) && Visits(t') == Visits(t)
        invariant SameLinks(old(events), events, todo) && heads == old(heads) && lists == old(lists)
      {
        t' := Act(actions[k], ev0, due0, t', todo);
      }
    }

    /** The callback of the event at the head of todo, if it is still active. */
    method Call(cur: Ptr, actions: seq<Action>, ghost ev0: Events, ghost due0: Keys, t: seq<Step>, ghost todo: seq<Ptr>) returns (t': seq<Step>)
      requires Scheduled() && Midway(ev0, t, events, todo) && Frame(ev0, due0, t, events, due) && todo != [] && cur == todo[0]
      modifies this, timers, realtimers
      ensures Scheduled() && Midway(ev0, t', events, todo) && Frame(ev0, due0, t', events, due) && Visits(t') == Visits(t) + [cur]
      ensures SameLinks(old(events), events, todo) && heads == old(heads) && lists == old(lists)
    {
      hide HeapOrdered, Linked, Members, Midway, Visits, Frame;
      Links(ev0, t, events, todo);
      Visited(ev0, t, events, todo);
      FrameStep(ev0, due0, t, events, due, if events[cur].active then Invoked(cur) else Skipped(cur), events, due);
      if events[cur].active {
        t' := RunCallback(actions, ev0, due0, t + [Invoked(cur)], todo);
      } else {
        t' := t + [Skipped(cur)];
      }
    }

    /** The event at the head of todo is no longer pending, and is freed if it is marked for destruction. */
    method Leave(cur: Ptr, ghost ev0: Events, ghost due0: Keys, t: seq<Step>, ghost todo: seq<Ptr>) returns (t': seq<Step>)
      requires Scheduled() && Midway(ev0, t, events, todo) && Frame(ev0, due0, t, events, due) && todo != [] && cur == todo[0]
      modifies this, timers, realtimers
      ensures Scheduled() && Midway(ev0, t', events, todo[1..]) && Frame(ev0, due0, t', events, due) && Visits(t') == Visits(t)
      ensures SameLinks(old(events), events, todo[1..]) && heads == old(heads) && lists == old(lists)
    {
      hide HeapOrdered, Linked, Members, Midway, Visits, Frame;
      Links(ev0, t, events, todo);
      Left(ev0, t, events, todo);
      if events[cur].destroy {
        FrameFreed(ev0, due0, t, events, due, cur);
      } else {
        FrameLeft(ev0, due0, t, events, due, cur);
      }
      Relinked(events, due, timers.slots, realtimers.slots, idles, cur, false, events[cur].next);
      t' := t;
      events := events[cur := events[cur].(pending := false)];
      if events[cur].destroy {
        assert old(events) - {cur} == events - {cur};
        EventDel(cur);
        t' := t' + [Freed(cur)];
      }
      Links(ev0, t', events, todo[1..]);
      assert forall p :: p in todo[1..] ==> p in todo;
    }

    /** The inner loop of hloop_process_pendings: the list of priority index i. */
    method DispatchList(i: nat, cb: (Ptr, nat) -> seq<Action>, ghost ev0: Events, ghost due0: Keys, t: seq<Step>) returns (t': seq<Step>)
      requires i < PRIORITY_SIZE == |heads| == |lists| && Scheduled()
      requires Midway(ev0, t, events, lists[i] + Order(lists, i)) && Chains(events, heads, lists, i + 1) && Frame(ev0, due0, t, events, due)
      modifies this, timers, realtimers
      ensures Scheduled() && heads == old(heads) && lists == old(lists)
      ensures Midway(ev0, t', events, Order(lists, i)) && Chains(events, heads, lists, i) && Frame(ev0, due0, t', events, due)
      ensures Visits(t') == Visits(t) + lists[i]
    {
      hide HeapOrdered, Linked, Members, Midway, Visits, Order, Frame;
      t' := t;
      var cur := heads[i];
      ghost var rest, below := lists[i], Order(lists, i);
      assert Visits(t') + rest == Visits(t) + lists[i];
      while cur != 0
        invariant Scheduled() && heads == old(heads) && lists == old(lists)
        invariant Midway(ev0, t', events, rest + below) && Frame(ev0, due0, t', events, due) && Visits(t') + rest == Visits(t) + lists[i]
        invariant Chain(events, cur, rest) && Chains(events, heads, lists, i)
        decreases |rest|
      {
        ghost var todo := rest + below;
        ghost var was := events;
        assert todo[1..] == rest[1..] + below;
        Links(ev0, t', events, todo);
        var next := events[cur].next;
        if events[cur].pending {
          t' := Call(cur, cb(cur, |t'|), ev0, due0, t', todo);
          t' := Leave(cur, ev0, due0, t', todo);
        }
        ChainsKept(was, events, next, rest[1..], heads, lists, i);
        assert rest == [cur] + rest[1..];
        cur, rest := next, rest[1..];
      }
      assert rest == [] && rest + below == below;
    }

    /** hloop_process_pendings: cb says what the callback of an event does, given what happened before. */
    method ProcessPendings(cb: (Ptr, nat) -> seq<Action>) returns (t: seq<Step>)
      requires Valid() && Tidy(events)
      modifies this, timers, realtimers
      ensures Valid() && npendings == 0
      ensures forall p :: p in events ==> !events[p].pending && !events[p].destroy
      ensures Good(old(events), t) && events.Keys == AllocatedAfter(old(events).Keys, t)
      ensures Visits(t) == Order(old(lists), PRIORITY_SIZE)
      ensures Frame(old(events), old(due), t, events, due)
    {
      hide HeapOrdered, Linked, Members, Midway, Visits, Order, Good, AllocatedAfter, Listed, Total, Tidy, Frame;
      t := [];
      AllFormed(events, due, timers.slots, realtimers.slots, idles);
      PassStarts(events, heads, lists);
      FrameStart(events, due);
      ghost var ev0, due0, all := events, due, Order(lists, PRIORITY_SIZE);
      if npendings == 0 {
        NonePending(events, heads, lists);
        Untouched(events);
        return;
      }
      var i: nat := PRIORITY_SIZE;
      while i > 0
        invariant 0 <= i <= PRIORITY_SIZE == |heads| == |lists| && Scheduled() && lists == old(lists)
        invariant Midway(ev0, t, events, Order(lists, i)) && Chains(events, heads, lists, i) && Frame(ev0, due0, t, events, due)
        invariant Visits(t) + Order(lists, i) == all
        invariant forall j :: i <= j < PRIORITY_SIZE ==> heads[j] == 0
      {
        i := i - 1;
        OrderStep(lists, i);
        t := DispatchList(i, cb, ev0, due0, t);
        heads := heads[i := 0];
      }
      OrderNone(lists);
      npendings := 0;
      lists := seq(PRIORITY_SIZE, _ => []);
      PassOver(ev0, t, events, heads, lists, all);
    }

    /**
      hloop_process_events after the wait: timers, then idles when nothing is pending, then the dispatch
      pass, which starts from the events ev.
      */
    method ProcessEvents(hrtime: int, now: int, cron: Ptr -> int, cb: (Ptr, nat) -> seq<Action>) returns (t: seq<Step>, ghost ev: Events)
      requires Valid() && Tidy(events) && forall p :: cron(p) * 1000000 > now
      modifies this, timers, realtimers
      ensures Valid() && Tidy(events) && forall p :: p in events ==> !events[p].pending
      ensures Good(ev, t) && ev.Keys == old(events).Keys && events.Keys == AllocatedAfter(ev.Keys, t)
      ensures Sorted(ev, Visits(t)) && forall p :: p in Visits(t) <==> IsPending(ev, p)
      ensures forall p :: IsTimer(old(events), old(due), p) && !old(events)[p].pending ==>
        TimerRound(old(events), old(due), TickOf(old(events)[p], hrtime, now, cron(p)), t, events, due, p)
      ensures forall p :: IsTimer(old(events), old(due), p) && old(due)[p] <= TickOf(old(events)[p], hrtime, now, cron(p)).time ==> p in Visits(t)
      ensures forall p :: IsIdle(old(events), p) && !old(events)[p].pending ==>
        IdleRound(old(events)[p], Quiet(old(events), old(due), hrtime, now), t, events, p)
    {
      hide HeapOrdered, Linked, Members, Visits, Order, Good, AllocatedAfter, Listed, Total, PassDone, IdlesFired, Frame, Sorted, TimerRound, AllReadied, IsTimer, Quiet, IdlesReadied, IdleRound;
      ghost var ev0, due0 := events, due;
      ghost var quiet := Quiet(events, due, hrtime, now);
      NoneReadied(events, due, timers.slots, realtimers.slots, idles, hrtime, now, cron);
      ghost var i0 := idles;
      if ntimers != 0 {
        NoPeriods(events, due, timers.slots, realtimers.slots, idles);
        ghost var s0, r0 := timers.slots, realtimers.slots;
        var _ := ProcessHeap(timers, hrtime, cron);
        ghost var ev1, due1, s1, r1, i1 := events, due, timers.slots, realtimers.slots, idles;
        var _ := ProcessHeap(realtimers, now, cron);
        IdlesLeft(ev0, due0, s0, r0, i0, ev1, due1, s1, r1, i1, events, due, hrtime, now, cron);
        TimersReadied(ev0, due0, s0, r0, old(idles), ev1, due1, s1, r1, i1, events, due, hrtime, now, cron);
      }
      AllFormed(events, due, timers.slots, realtimers.slots, idles);
      CountsPending(events, heads, lists);
      IdlesNow(events, due, timers.slots, realtimers.slots, idles);
      NoIdles(ev0, events, idles, quiet);
      if npendings == 0 {
        if nidles != 0 {
          ghost var ev2, l := events, idles;
          AllIdle(events, due, timers.slots, realtimers.slots, idles);
          var _ := ProcessIdles();
          IdlesMarked(ev0, due0, ev2, events, due, l, hrtime, now, cron);
          IdlesDone(ev0, ev2, events, l);
        }
      }
      Shape(ev0, due0, events, due, hrtime, now, cron);
      AllFormed(events, due, timers.slots, realtimers.slots, idles);
      AllOrdered(events, heads, lists);
      ev := events;
      ghost var due2 := due;
      t := ProcessPendings(cb);
      RoundsOver(ev0, due0, ev, due2, t, events, due, hrtime, now, cron);
      IdleRoundsOver(ev0, quiet, ev, due2, t, events, due);
    }
  }
  // ---- a round

  ghost predicate IsTimer(ev: Events, due: Keys, p: Ptr) {
    p in ev && p in due && WellFormed(ev[p]) && !ev[p].kind.Idle? && !ev[p].destroy
  }

  /** The timers of htimer_add follow the clock hrtime, those of htimer_add_period the clock now. */
  function TickOf(e: Event, hrtime: int, now: int, cron: int): Tick {
    Tick(if e.kind.Period? then now else hrtime, cron)
  }

  ghost predicate IsIdle(ev: Events, p: Ptr) {
    p in ev && WellFormed(ev[p]) && ev[p].kind.Idle? && !ev[p].destroy
  }

  /** Nothing is pending and no timer is due by its clock: the rounds in which idles run. */
  ghost predicate Quiet(ev: Events, due: Keys, hrtime: int, now: int) {
    && (forall p :: p in ev ==> !ev[p].pending)
    && (forall p :: IsTimer(ev, due, p) ==> due[p] > TickOf(ev[p], hrtime, now, 0).time)
  }

  /** What a round has done to the idles before the dispatch pass. */
  ghost predicate IdlesReadied(ev0: Events, ev: Events, quiet: bool) {
    forall p :: IsIdle(ev0, p) ==> p in ev && if quiet then Fired(ev0[p], ev[p]) else ev[p] == ev0[p]
  }

  /** The timer passes leave the idles alone, and something is pending after them unless the round is quiet. */
  lemma IdlesLeft(ev0: Events, due0: Keys, s0: seq<Ptr>, r0: seq<Ptr>, idles0: seq<Ptr>, ev1: Events, due1: Keys, s1: seq<Ptr>, r1: seq<Ptr>, idles1: seq<Ptr>,
                  ev: Events, due: Keys, hrtime: int, now: int, cron: Ptr -> int)
    requires Members(ev0, due0, s0, r0, idles0) && Members(ev1, due1, s1, r1, idles1)
    requires PassDone(ev0, due0, DueSet(s0, due0, hrtime), {}, ev1, due1, hrtime, cron)
    requires PassDone(ev1, due1, DueSet(r1, due1, now), {}, ev, due, now, cron)
    ensures IdlesReadied(ev0, ev, false)
    ensures Quiet(ev0, due0, hrtime, now) <==> forall p :: p in ev ==> !ev[p].pending
  {
    assert ev.Keys == ev0.Keys;
    hide PassDone, Members, DueSet;
    forall p | p in ev0
      ensures p in ev && (ev[p].pending <==> ev0[p].pending || Due(ev0, due0, hrtime, now, p)) && (IsIdle(ev0, p) ==> ev[p] == ev0[p])
    {
      Where(ev0, due0, s0, r0, idles0, p);
      Where(ev1, due1, s1, r1, idles1, p);
      PassOne(ev0, due0, s0, ev1, due1, hrtime, cron, p);
      PassOne(ev1, due1, r1, ev, due, now, cron, p);
    }
  }

  lemma PassOne(ev: Events, due: Keys, s: seq<Ptr>, ev': Events, due': Keys, timeout: int, cron: Ptr -> int, p: Ptr)
    requires PassDone(ev, due, DueSet(s, due, timeout), {}, ev', due', timeout, cron) && p in ev
    ensures p in ev' && (ev'[p].pending <==> ev[p].pending || (p in s && p in due && due[p] <= timeout))
    ensures p !in s ==> ev'[p] == ev[p] && (p in due ==> p in due' && due'[p] == due[p])
    ensures ev'[p].kind == ev[p].kind
  {
    assert p in DueSet(s, due, timeout) <==> p in s && p in due && due[p] <= timeout;
  }

  ghost predicate Due(ev: Events, due: Keys, hrtime: int, now: int, p: Ptr) {
    IsTimer(ev, due, p) && due[p] <= TickOf(ev[p], hrtime, now, 0).time
  }

  /** The timer passes of a round have been over every timer. */
  ghost predicate AllReadied(ev0: Events, due0: Keys, ev: Events, due: Keys, hrtime: int, now: int, cron: Ptr -> int) {
    && ev.Keys == ev0.Keys && Tidy(ev)
    && forall p :: IsTimer(ev0, due0, p) ==> p in due && Readied(ev0[p], due0[p], TickOf(ev0[p], hrtime, now, cron(p)), ev[p], due[p])
  }

  lemma Shape(ev0: Events, due0: Keys, ev: Events, due: Keys, hrtime: int, now: int, cron: Ptr -> int)
    requires AllReadied(ev0, due0, ev, due, hrtime, now, cron)
    ensures ev.Keys == ev0.Keys && Tidy(ev)
  {
  }

  lemma NoneReadied(ev: Events, due: Keys, ts: seq<Ptr>, rs: seq<Ptr>, idles: seq<Ptr>, hrtime: int, now: int, cron: Ptr -> int)
    requires Members(ev, due, ts, rs, idles) && Tidy(ev)
    ensures ts == [] && rs == [] ==> AllReadied(ev, due, ev, due, hrtime, now, cron)
    ensures IdlesReadied(ev, ev, false)
    ensures ts == [] && rs == [] ==> (Quiet(ev, due, hrtime, now) <==> forall p :: p in ev ==> !ev[p].pending)
  {
    forall p | IsTimer(ev, due, p) ensures p in ts || p in rs {}
  }

  lemma CountsPending(ev: Events, heads: seq<Ptr>, lists: seq<seq<Ptr>>)
    requires Listed(ev, heads, lists) && forall p :: p in ev ==> WellFormed(ev[p])
    ensures Total(lists) == 0 <==> forall p :: p in ev ==> !ev[p].pending
  {
    if Total(lists) == 0 {
      TotalZero(lists);
    } else if forall p :: p in ev ==> !ev[p].pending {
      assert forall i :: 0 <= i < |lists| && lists[i] != [] ==> lists[i][0] in lists[i];
      TotalNone(lists);
    }
  }

  /** The idle list holds the idles. */
  lemma IdlesNow(ev: Events, due: Keys, ts: seq<Ptr>, rs: seq<Ptr>, idles: seq<Ptr>)
    requires Members(ev, due, ts, rs, idles)
    ensures AllListed(ev, idles)
  {
  }

  ghost predicate AllListed(ev: Events, idles: seq<Ptr>) { forall p :: IsIdle(ev, p) ==> p in idles }

  lemma NoIdles(ev0: Events, ev: Events, idles: seq<Ptr>, quiet: bool)
    requires IdlesReadied(ev0, ev, false) && AllListed(ev, idles)
    ensures idles == [] ==> IdlesReadied(ev0, ev, quiet)
  {
    forall p | IsIdle(ev0, p) ensures idles != [] { assert IsIdle(ev, p); }
  }

  /** The idle pass fires every idle. */
  lemma IdlesDone(ev0: Events, ev: Events, ev': Events, idles: seq<Ptr>)
    requires IdlesReadied(ev0, ev, false) && AllListed(ev, idles) && IdlesFired(ev, ev', idles)
    ensures IdlesReadied(ev0, ev', true)
  {
    forall p | IsIdle(ev0, p) ensures p in ev' && Fired(ev0[p], ev'[p]) { assert IsIdle(ev, p); }
  }

  lemma IdleRoundsOver(ev0: Events, quiet: bool, ev: Events, due: Keys, t: seq<Step>, ev': Events, due': Keys)
    requires IdlesReadied(ev0, ev, quiet)
    requires Good(ev, t) && Sorted(ev, Visits(t)) && forall p :: p in Visits(t) <==> IsPending(ev, p)
    requires Frame(ev, due, t, ev', due') && forall q :: q in ev' ==> !ev'[q].pending && !ev'[q].destroy
    ensures forall p :: IsIdle(ev0, p) && !ev0[p].pending ==> IdleRound(ev0[p], quiet, t, ev', p)
  {
    hide Good, Visits, Frame, IdleRound, NoDup, Fired;
    forall p | IsIdle(ev0, p) && !ev0[p].pending ensures IdleRound(ev0[p], quiet, t, ev', p) {
      IdleOver(ev0[p], quiet, ev, due, t, ev', due', p);
    }
  }

  lemma NoPeriods(ev: Events, due: Keys, ts: seq<Ptr>, rs: seq<Ptr>, idles: seq<Ptr>)
    requires Members(ev, due, ts, rs, idles)
    ensures forall p :: p in ts && p in ev ==> !ev[p].kind.Period?
  {
  }

  /** A timer pass does Pass to every timer of its heap, and sets pending exactly when the timer fires. */
  lemma PassReadied(ev: Events, due: Keys, s: seq<Ptr>, ev': Events, due': Keys, timeout: int, cron: Ptr -> int, p: Ptr)
    requires PassDone(ev, due, DueSet(s, due, timeout), {}, ev', due', timeout, cron) && IsTimer(ev, due, p)
    ensures p in s ==> p in due' && Readied(ev[p], due[p], Tick(timeout, cron(p)), ev'[p], due'[p])
    ensures p !in s ==> p in due' && ev'[p] == ev[p] && due'[p] == due[p]
  {
    assert p in DueSet(s, due, timeout) <==> p in s && due[p] <= timeout;
  }

  lemma TimersReadied(ev0: Events, due0: Keys, s0: seq<Ptr>, r0: seq<Ptr>, idles0: seq<Ptr>, ev1: Events, due1: Keys, s1: seq<Ptr>, r1: seq<Ptr>, idles1: seq<Ptr>,
                      ev: Events, due: Keys, hrtime: int, now: int, cron: Ptr -> int)
    requires Members(ev0, due0, s0, r0, idles0) && Members(ev1, due1, s1, r1, idles1) && Tidy(ev0)
    requires PassDone(ev0, due0, DueSet(s0, due0, hrtime), {}, ev1, due1, hrtime, cron)
    requires PassDone(ev1, due1, DueSet(r1, due1, now), {}, ev, due, now, cron)
    ensures AllReadied(ev0, due0, ev, due, hrtime, now, cron)
  {
    Marked(ev0, due0, DueSet(s0, due0, hrtime), ev1, due1, hrtime, cron);
    Marked(ev1, due1, DueSet(r1, due1, now), ev, due, now, cron);
    hide PassDone, DueSet;
    forall p | IsTimer(ev0, due0, p)
      ensures p in due && Readied(ev0[p], due0[p], TickOf(ev0[p], hrtime, now, cron(p)), ev[p], due[p])
    {
      Where(ev0, due0, s0, r0, idles0, p);
      Where(ev1, due1, s1, r1, idles1, p);
      PassReadied(ev0, due0, s0, ev1, due1, hrtime, cron, p);
      if ev1[p].destroy {
        Untimed(ev1, due1, r1, ev, due, now, cron, p);
      } else {
        PassReadied(ev1, due1, r1, ev, due, now, cron, p);
      }
    }
  }

  lemma Untimed(ev: Events, due: Keys, s: seq<Ptr>, ev': Events, due': Keys, timeout: int, cron: Ptr -> int, p: Ptr)
    requires PassDone(ev, due, DueSet(s, due, timeout), {}, ev', due', timeout, cron) && p in ev && p in due && p !in s
    ensures p in ev' && p in due' && ev'[p] == ev[p] && due'[p] == due[p]
  {
  }

  /** A timer pass marks only events that it makes pending. */
  lemma Marked(ev: Events, due: Keys, fired: set<Ptr>, ev': Events, due': Keys, timeout: int, cron: Ptr -> int)
    requires PassDone(ev, due, fired, {}, ev', due', timeout, cron) && Tidy(ev)
    ensures Tidy(ev') && ev'.Keys == ev.Keys
  {
  }

  /** The idle pass leaves the timers alone. */
  lemma IdlesMarked(ev0: Events, due0: Keys, ev: Events, ev': Events, due: Keys, idles: seq<Ptr>, hrtime: int, now: int, cron: Ptr -> int)
    requires AllReadied(ev0, due0, ev, due, hrtime, now, cron) && IdlesFired(ev, ev', idles)
    requires forall i :: 0 <= i < |idles| ==> idles[i] in ev && ev[idles[i]].kind.Idle?
    ensures AllReadied(ev0, due0, ev', due, hrtime, now, cron)
  {
    forall p | IsTimer(ev0, due0, p)
      ensures p in due && Readied(ev0[p], due0[p], TickOf(ev0[p], hrtime, now, cron(p)), ev'[p], due[p])
    {
      assert p in ev && !ev[p].kind.Idle?;
      assert p !in idles;
    }
  }

  lemma RoundsOver(ev0: Events, due0: Keys, ev: Events, due: Keys, t: seq<Step>, ev': Events, due': Keys, hrtime: int, now: int, cron: Ptr -> int)
    requires AllReadied(ev0, due0, ev, due, hrtime, now, cron)
    requires Good(ev, t) && Sorted(ev, Visits(t)) && forall p :: p in Visits(t) <==> IsPending(ev, p)
    requires Frame(ev, due, t, ev', due') && forall q :: q in ev' ==> !ev'[q].pending && !ev'[q].destroy
    ensures forall p :: IsTimer(ev0, due0, p) && !ev0[p].pending ==>
      TimerRound(ev0, due0, TickOf(ev0[p], hrtime, now, cron(p)), t, ev', due', p)
    ensures forall p :: IsTimer(ev0, due0, p) && due0[p] <= TickOf(ev0[p], hrtime, now, cron(p)).time ==> p in Visits(t)
  {
    forall p | IsTimer(ev0, due0, p) && due0[p] <= TickOf(ev0[p], hrtime, now, cron(p)).time ensures p in Visits(t) {
      assert IsPending(ev, p);
    }
    hide Good, Visits, Frame, TimerRound, Readied, NoDup, TickOf;
    forall p | IsTimer(ev0, due0, p) && !ev0[p].pending
      ensures TimerRound(ev0, due0, TickOf(ev0[p], hrtime, now, cron(p)), t, ev', due', p)
    {
      RoundOver(ev0, due0, TickOf(ev0[p], hrtime, now, cron(p)), ev, due, t, ev', due', p);
    }
  }

  /** The dispatch order: every pending event once, highest priority first. */
  lemma AllOrdered(ev: Events, heads: seq<Ptr>, lists: seq<seq<Ptr>>)
    requires Listed(ev, heads, lists) && forall p :: p in ev ==> WellFormed(ev[p])
    ensures |lists| == PRIORITY_SIZE && Sorted(ev, Order(lists, PRIORITY_SIZE))
    ensures forall p :: p in Order(lists, PRIORITY_SIZE) <==> IsPending(ev, p)
  {
    OrderSorted(ev, heads, lists, PRIORITY_SIZE);
    forall p | IsPending(ev, p) ensures p in Order(lists, PRIORITY_SIZE) {
      assert p in lists[PriorityIndex(ev[p].priority)];
      OrderHas(lists, PRIORITY_SIZE, p);
    }
    hide Order, Listed, NoDup;
  }

  /** Only pending events may be marked for destruction: what is destroyed outside a dispatch pass is freed at once. */
  ghost predicate Tidy(ev: Events) {
    forall p :: p in ev && ev[p].destroy ==> ev[p].pending
  }

  ghost predicate Chains(ev: Events, heads: seq<Ptr>, lists: seq<seq<Ptr>>, n: nat) {
    n <= |heads| && n <= |lists| && forall j :: 0 <= j < n ==> Chain(ev, heads[j], lists[j])
  }

  lemma ChainsKept(ev: Events, ev': Events, next: Ptr, rest: seq<Ptr>, heads: seq<Ptr>, lists: seq<seq<Ptr>>, i: nat)
    requires i <= |lists| && Chain(ev, next, rest) && Chains(ev, heads, lists, i)
    requires SameLinks(ev, ev', rest + Order(lists, i))
    ensures Chain(ev', next, rest) && Chains(ev', heads, lists, i)
  {
    OrderMembers(lists, i);
    ChainFrame(ev, ev', next, rest);
    forall j | 0 <= j < i ensures Chain(ev', heads[j], lists[j]) {
      assert forall p :: p in lists[j] ==> p in rest + Order(lists, i);
      ChainFrame(ev, ev', heads[j], lists[j]);
    }
  }

  lemma OrderNone(lists: seq<seq<Ptr>>)
    ensures Order(lists, 0) == []
  {
  }

  lemma OrderStep(lists: seq<seq<Ptr>>, i: nat)
    requires i < |lists|
    ensures Order(lists, i + 1) == lists[i] + Order(lists, i)
  {
  }

  lemma AllFormed(events: Events, due: Keys, ts: seq<Ptr>, rs: seq<Ptr>, idles: seq<Ptr>)
    requires Members(events, due, ts, rs, idles)
    ensures forall p :: p in events ==> WellFormed(events[p])
  {
  }

  lemma Untouched(ev: Events)
    ensures Good(ev, []) && AllocatedAfter(ev.Keys, []) == ev.Keys && Visits([]) == []
  {
  }

  lemma PassStarts(ev: Events, heads: seq<Ptr>, lists: seq<seq<Ptr>>)
    requires Listed(ev, heads, lists) && Tidy(ev)
    requires forall p :: p in ev ==> WellFormed(ev[p])
    ensures |heads| == |lists| == PRIORITY_SIZE
    ensures Midway(ev, [], ev, Order(lists, PRIORITY_SIZE)) && Chains(ev, heads, lists, PRIORITY_SIZE)
    ensures Visits([]) + Order(lists, PRIORITY_SIZE) == Order(lists, PRIORITY_SIZE)
  {
    hide Order;
    var order := Order(lists, PRIORITY_SIZE);
    assert Waiting(ev, order) by {
      OrderSorted(ev, heads, lists, PRIORITY_SIZE);
      forall p | p in ev && ev[p].pending ensures p in order {
        OrderMembers(lists, PRIORITY_SIZE);
        assert p in lists[PriorityIndex(ev[p].priority)];
      }
    }
    hide Listed;
  }

  lemma NonePending(ev: Events, heads: seq<Ptr>, lists: seq<seq<Ptr>>)
    requires Listed(ev, heads, lists) && Total(lists) == 0 && Tidy(ev)
    requires forall p :: p in ev ==> WellFormed(ev[p])
    ensures forall p :: p in ev ==> !ev[p].pending && !ev[p].destroy
    ensures Order(lists, PRIORITY_SIZE) == []
  {
    TotalZero(lists);
    OrderEmpty(lists, PRIORITY_SIZE);
  }

  lemma {:induction false} OrderEmpty(lists: seq<seq<Ptr>>, n: nat)
    requires n <= |lists| && forall i :: 0 <= i < |lists| ==> lists[i] == []
    ensures Order(lists, n) == []
  {
    if n > 0 { OrderEmpty(lists, n - 1); }
  }

  lemma {:induction false} TotalZero(lists: seq<seq<Ptr>>)
    requires Total(lists) == 0
    ensures forall i :: 0 <= i < |lists| ==> lists[i] == []
  {
    if lists != [] {
      TotalZero(lists[1..]);
      assert forall i :: 1 <= i < |lists| ==> lists[i] == lists[1..][i - 1];
    }
  }

  lemma PassOver(ev0: Events, t: seq<Step>, ev: Events, heads: seq<Ptr>, lists: seq<seq<Ptr>>, all: seq<Ptr>)
    requires Midway(ev0, t, ev, []) && |heads| == |lists| == PRIORITY_SIZE
    requires forall j :: 0 <= j < PRIORITY_SIZE ==> heads[j] == 0 && lists[j] == []
    requires Visits(t) + [] == all
    ensures Listed(ev, heads, lists) && Total(lists) == 0 && Visits(t) == all
    ensures forall p :: p in ev ==> !ev[p].pending && !ev[p].destroy
    ensures Good(ev0, t) && ev.Keys == AllocatedAfter(ev0.Keys, t)
  {
    TotalNone(lists);
  }

  /** The list links of the events of todo. */
  ghost predicate SameLinks(ev: Events, ev': Events, todo: seq<Ptr>) {
    forall p :: p in todo ==> p in ev && p in ev' && ev'[p].next == ev[p].next
  }

  lemma Links(ev0: Events, t: seq<Step>, ev: Events, todo: seq<Ptr>)
    requires Midway(ev0, t, ev, todo)
    ensures SameLinks(ev, ev, todo)
    ensures forall p :: p in todo ==> p in ev && ev[p].pending
  {
  }

  lemma Zero(events: Events, due: Keys, ts: seq<Ptr>, rs: seq<Ptr>, idles: seq<Ptr>)
    requires Members(events, due, ts, rs, idles)
    ensures 0 !in events
  {
  }

  ghost predicate IdlesFired(ev: Events, ev': Events, done: seq<Ptr>) {
    ev'.Keys == ev.Keys && forall p :: p in ev ==> if p in done then Fired(ev[p], ev'[p]) else ev'[p] == ev[p]
  }

  lemma AllIdle(events: Events, due: Keys, ts: seq<Ptr>, rs: seq<Ptr>, idles: seq<Ptr>)
    requires Members(events, due, ts, rs, idles)
    ensures NoDup(idles) && forall i :: 0 <= i < |idles| ==> idles[i] in events && events[idles[i]].kind.Idle? && !events[idles[i]].destroy
  {
    assert forall i :: 0 <= i < |idles| ==> idles[i] in idles;
  }

  lemma NextIdle(ev: Events, ev': Events, idles: seq<Ptr>, n: nat)
    requires n < |idles| && NoDup(idles) && IdlesFired(ev, ev', idles[..n]) && idles[n] in ev
    ensures idles[n] in ev' && ev'[idles[n]] == ev[idles[n]]
  {
  }

  lemma IdleFired(ev0: Events, ev: Events, ev': Events, idles: seq<Ptr>, n: nat)
    requires n < |idles| && NoDup(idles) && IdlesFired(ev0, ev, idles[..n]) && idles[n] in ev0 && idles[n] in ev'
    requires ev' == ev[idles[n] := ev'[idles[n]]] && Fired(ev0[idles[n]], ev'[idles[n]])
    ensures IdlesFired(ev0, ev', idles[..n + 1])
  {
    assert idles[..n + 1] == idles[..n] + [idles[n]];
  }

  /** The timers due at the start of a pass. */
  ghost function DueSet(s: seq<Ptr>, due: Keys, timeout: int): set<Ptr> {
    set p | p in s && p in due && due[p] <= timeout
  }

  /** In the middle of a pass: the timers of fired that are not in todo have fired, the rest is untouched. */
  ghost predicate PassDone(ev: Events, due: Keys, fired: set<Ptr>, todo: set<Ptr>, ev': Events, due': Keys, timeout: int, cron: Ptr -> int) {
    && ev'.Keys == ev.Keys && due'.Keys == due.Keys && fired <= ev.Keys && fired <= due.Keys
    && (forall p :: p in ev ==> if p in fired && p !in todo then Fired(ev[p], ev'[p]) else ev'[p] == ev[p])
    && (forall p :: p in due ==>
          if p in fired && p !in todo && !ev'[p].destroy
          then (ev[p].kind.Timeout? ==> ev[p].kind.ms >= 1) && due'[p] == Rearmed(ev[p].kind, due[p], timeout, cron(p))
          else due'[p] == due[p])
  }

  lemma PassBegins(ev: Events, due: Keys, ts: seq<Ptr>, rs: seq<Ptr>, idles: seq<Ptr>, wall: bool, timeout: int, cron: Ptr -> int)
    requires Members(ev, due, ts, rs, idles)
    ensures var fired := DueSet(if wall then rs else ts, due, timeout);
      PassDone(ev, due, fired, fired, ev, due, timeout, cron)
  {
  }

  /** A due root is one of the timers that have not fired yet. */
  lemma RootTodo(ev0: Events, due0: Keys, ts0: seq<Ptr>, rs0: seq<Ptr>, idles0: seq<Ptr>, fired: set<Ptr>, todo: set<Ptr>,
                 ev: Events, due: Keys, ts: seq<Ptr>, rs: seq<Ptr>, idles: seq<Ptr>, wall: bool, root: Ptr, timeout: int, cron: Ptr -> int)
    requires Members(ev0, due0, ts0, rs0, idles0) && Members(ev, due, ts, rs, idles)
    requires fired == DueSet(if wall then rs0 else ts0, due0, timeout)
    requires PassDone(ev0, due0, fired, todo, ev, due, timeout, cron)
    requires wall ==> forall p :: p in rs0 && p in ev0 && ev0[p].kind.Period? ==> cron(p) * 1000000 > timeout
    requires root in (if wall then rs else ts) && root in due && due[root] <= timeout
    ensures root in todo
  {
    assert root in ev && root in ev0 && !ev[root].destroy;
  }

  lemma PassStep(ev0: Events, due0: Keys, fired: set<Ptr>, todo: set<Ptr>, ev: Events, due: Keys, timer: Ptr, ev': Events, due': Keys, timeout: int, cron: Ptr -> int)
    requires PassDone(ev0, due0, fired, todo, ev, due, timeout, cron) && timer in todo && todo <= fired
    requires timer in ev' && Fired(ev[timer], ev'[timer]) && ev' == ev[timer := ev'[timer]] && WellFormed(ev[timer])
    requires due' == if ev'[timer].destroy then due else due[timer := Rearmed(ev[timer].kind, due[timer], timeout, cron(timer))]
    ensures PassDone(ev0, due0, fired, todo - {timer}, ev', due', timeout, cron)
  {
  }

  lemma PassEnds(ev0: Events, due0: Keys, ts0: seq<Ptr>, rs0: seq<Ptr>, idles0: seq<Ptr>, fired: set<Ptr>, todo: set<Ptr>,
                 ev: Events, due: Keys, ts: seq<Ptr>, rs: seq<Ptr>, idles: seq<Ptr>, wall: bool, m: Memory, root: Ptr, timeout: int, cron: Ptr -> int)
    requires Members(ev0, due0, ts0, rs0, idles0) && Members(ev, due, ts, rs, idles)
    requires fired == DueSet(if wall then rs0 else ts0, due0, timeout) && todo <= fired
    requires PassDone(ev0, due0, fired, todo, ev, due, timeout, cron)
    requires var s := if wall then rs else ts; Linked(m, root, s) && HeapOrdered(s, due)
    requires root == 0 || (root in due && due[root] > timeout)
    ensures todo == {}
    ensures forall p :: p in (if wall then rs else ts) ==> p in due && due[p] > timeout
  {
    var s := if wall then rs else ts;
    Heap.RootLeast(s, due);
    assert root == 0 ==> s == [];
    assert forall p :: p in todo ==> p in s && due[p] == due0[p];
  }

  /** The loop that advances a due time past now. */
  method Advance(d0: int, step: nat, now: int) returns (d: int)
    requires step >= 1
    ensures d == NextDue(d0, step, now)
  {
    d := d0;
    while d <= now
      invariant NextDue(d, step, now) == NextDue(d0, step, now)
      decreases now - d
    {
      d := d + step;
    }
  }

  /** A fresh timer arrives zeroed: its heap node has null links. */
  method NewNode(h: Heap.Heap, p: Ptr)
    requires Linked(h.mem, h.root, h.slots) && p !in h.slots
    modifies h`mem
    ensures Linked(h.mem, h.root, h.slots) && p in h.mem && h.mem[p] == HeapNode(0, 0, 0)
  {
    ghost var m := h.mem;
    h.mem := h.mem[p := HeapNode(0, 0, 0)];
    Heap.CellWritten(m, h.mem, p, h.root, h.slots);
  }

  /** list_del of a member. */
  lemma {:induction false} ListDel(s: seq<Ptr>, p: Ptr)
    requires NoDup(s)
    ensures NoDup(Without(s, p)) && |Without(s, p)| == |s| - (if p in s then 1 else 0)
    ensures forall q :: q in Without(s, p) <==> q in s && q != p
  {
    if s != [] {
      ListDel(s[1..], p);
      assert s == [s[0]] + s[1..];
      assert s[0] !in s[1..];
      var t := Without(s[1..], p);
      assert forall i :: 0 <= i < |t| ==> t[i] in s[1..];
    }
  }

  /** In which heap or list an event is. */
  lemma Where(events: Events, due: Keys, ts: seq<Ptr>, rs: seq<Ptr>, idles: seq<Ptr>, p: Ptr)
    requires Members(events, due, ts, rs, idles)
    ensures p in ts <==> p in events && events[p].kind.Timeout? && !events[p].destroy
    ensures p in rs <==> p in events && events[p].kind.Period? && !events[p].destroy
    ensures p in idles <==> p in events && events[p].kind.Idle? && !events[p].destroy
    ensures NoDup(idles) && 0 !in events
    ensures p in events ==> WellFormed(events[p]) && (p in due || events[p].kind.Idle?)
  {
  }

  /** The root of a heap is a timer that is not marked for destruction. */
  lemma RootWhere(events: Events, due: Keys, ts: seq<Ptr>, rs: seq<Ptr>, idles: seq<Ptr>, m: Memory, root: Ptr, s: seq<Ptr>)
    requires Members(events, due, ts, rs, idles) && Linked(m, root, s) && root != 0 && (s == ts || s == rs)
    ensures root in s && root in events && root in due && WellFormed(events[root])
    ensures !events[root].kind.Idle? && !events[root].destroy
  {
    assert s != [];
  }

  lemma Destroyed(events: Events, due: Keys, ts: seq<Ptr>, rs: seq<Ptr>, idles: seq<Ptr>, p: Ptr, ts': seq<Ptr>, rs': seq<Ptr>, idles': seq<Ptr>)
    requires Members(events, due, ts, rs, idles) && p in events && NoDup(idles')
    requires forall q :: q in ts' <==> q in ts && q != p
    requires forall q :: q in rs' <==> q in rs && q != p
    requires forall q :: q in idles' <==> q in idles && q != p
    ensures Members(events[p := events[p].(destroy := true)], due, ts', rs', idles')
  {
  }

  lemma SameMembers(events: Events, due: Keys, due': Keys, ts: seq<Ptr>, rs: seq<Ptr>, idles: seq<Ptr>, ts': seq<Ptr>, rs': seq<Ptr>)
    requires Members(events, due, ts, rs, idles) && due.Keys <= due'.Keys
    requires forall q :: q in ts' <==> q in ts
    requires forall q :: q in rs' <==> q in rs
    ensures Members(events, due', ts', rs', idles)
  {
  }

  lemma RepeatChanged(events: Events, due: Keys, ts: seq<Ptr>, rs: seq<Ptr>, idles: seq<Ptr>, p: Ptr, repeat: nat)
    requires Members(events, due, ts, rs, idles) && p in events && repeat <= INFINITE
    ensures Members(events[p := events[p].(repeat := repeat)], due, ts, rs, idles)
  {
  }

  lemma Relinked(events: Events, due: Keys, ts: seq<Ptr>, rs: seq<Ptr>, idles: seq<Ptr>, p: Ptr, pending: bool, next: Ptr)
    requires Members(events, due, ts, rs, idles) && p in events
    ensures Members(events[p := events[p].(pending := pending, next := next)], due, ts, rs, idles)
  {
  }

  /** Fields other than priority, pending and pending_next do not matter to the lists. */
  lemma Relisted(events: Events, events': Events, heads: seq<Ptr>, lists: seq<seq<Ptr>>)
    requires Listed(events, heads, lists) && events'.Keys == events.Keys
    requires forall p :: p in events ==>
      events'[p].priority == events[p].priority && events'[p].pending == events[p].pending && events'[p].next == events[p].next
    ensures Listed(events', heads, lists)
  {
    hide Chain, NoDup;
    forall i | 0 <= i < PRIORITY_SIZE ensures Chain(events', heads[i], lists[i]) {
      ChainFrame(events, events', heads[i], lists[i]);
    }
    forall i, p | 0 <= i < PRIORITY_SIZE && p in lists[i]
      ensures p in events' && events'[p].pending && PriorityIndex(events'[p].priority) == i
    {
      assert p in events;
    }
  }

  lemma RelistedOne(events: Events, heads: seq<Ptr>, lists: seq<seq<Ptr>>, p: Ptr, e: Event)
    requires Listed(events, heads, lists) && p in events
    requires e.priority == events[p].priority && e.pending == events[p].pending && e.next == events[p].next
    ensures Listed(events[p := e], heads, lists)
  {
    Relisted(events, events[p := e], heads, lists);
  }

  lemma Deactivated(events: Events, due: Keys, ts: seq<Ptr>, rs: seq<Ptr>, idles: seq<Ptr>, p: Ptr)
    requires Members(events, due, ts, rs, idles) && p in events && events[p].destroy
    ensures Members(events[p := events[p].(active := false)], due, ts, rs, idles)
    ensures Members(events - {p}, due, ts, rs, idles)
    ensures events[p := events[p].(active := false)] - {p} == events - {p}
  {
  }

  lemma Created(events: Events, due: Keys, ts: seq<Ptr>, rs: seq<Ptr>, idles: seq<Ptr>, p: Ptr, e: Event, d: int, ts': seq<Ptr>, rs': seq<Ptr>, idles': seq<Ptr>)
    requires Members(events, due, ts, rs, idles) && p !in events && p != 0 && WellFormed(e) && !e.destroy
    requires forall q :: q in ts' <==> q in ts || (q == p && e.kind.Timeout?)
    requires forall q :: q in rs' <==> q in rs || (q == p && e.kind.Period?)
    requires forall q :: q in idles' <==> q in idles || (q == p && e.kind.Idle?)
    requires NoDup(idles')
    ensures Members(events[p := e], due[p := d], ts', rs', idles')
  {
  }

  lemma CreatedIdle(events: Events, due: Keys, ts: seq<Ptr>, rs: seq<Ptr>, idles: seq<Ptr>, p: Ptr, e: Event)
    requires Members(events, due, ts, rs, idles) && p !in events && p != 0 && WellFormed(e) && !e.destroy && e.kind.Idle?
    ensures Members(events[p := e], due, ts, rs, [p] + idles)
  {
  }

  /** The due time of an event outside a heap does not matter to it. */
  lemma DueChanged(s: seq<Ptr>, due: Keys, p: Ptr, d: int)
    requires HeapOrdered(s, due) && p !in s
    ensures HeapOrdered(s, due[p := d])
  {
    assert forall i :: 1 <= i <= |s| ==> Slot(s, i) in s;
    var due' := due[p := d];
    forall i | 2 <= i <= |s| ensures Ordered(s, due', i) { assert Ordered(s, due, i); }
  }

  ghost predicate Members(events: Events, due: Keys, ts: seq<Ptr>, rs: seq<Ptr>, idles: seq<Ptr>) {
    && 0 !in events && NoDup(idles)
    && (forall p :: p in events ==> WellFormed(events[p]) && (p in due || events[p].kind.Idle?))
    && (forall p :: p in ts <==> p in events && events[p].kind.Timeout? && !events[p].destroy)
    && (forall p :: p in rs <==> p in events && events[p].kind.Period? && !events[p].destroy)
    && (forall p :: p in idles <==> p in events && events[p].kind.Idle? && !events[p].destroy)
  }

  /** The number of linked events. */
  function Total(lists: seq<seq<Ptr>>): nat {
    if lists == [] then 0 else |lists[0]| + Total(lists[1..])
  }

  lemma {:induction false} TotalPush(lists: seq<seq<Ptr>>, i: int, p: Ptr)
    requires 0 <= i < |lists|
    ensures Total(lists[i := [p] + lists[i]]) == Total(lists) + 1
  {
    var lists' := lists[i := [p] + lists[i]];
    if i == 0 {
      assert lists'[1..] == lists[1..];
    } else {
      assert lists'[1..] == lists[1..][i - 1 := [p] + lists[i]];
      TotalPush(lists[1..], i - 1, p);
    }
  }

  lemma {:induction false} TotalNone(lists: seq<seq<Ptr>>)
    requires forall i :: 0 <= i < |lists| ==> lists[i] == []
    ensures Total(lists) == 0
  {
    if lists != [] { TotalNone(lists[1..]); }
  }
}
