/** Events of event/hevent.h: flags, repeat counts, due times and the pending lists. */
module LoopModel {

  import opened Basics
  import opened HeapShape

  const INFINITE: nat := 0xFFFF_FFFF
  const LOWEST_PRIORITY := -5
  const HIGH_PRIORITY := 3
  const HIGHEST_PRIORITY := 5
  const PRIORITY_SIZE := 11

  datatype Kind = Timeout(ms: nat) | Period | Idle

  /** When a period timer is due: a negative field means any minute, hour, day of the month or week, or month. */
  datatype Cron = Cron(minute: int, hour: int, day: int, week: int, month: int)

  predicate InRange(c: Cron) {
    c.minute <= 59 && c.hour <= 23 && c.day <= 31 && c.week <= 6 && c.month <= 12
  }

  /** The fields of hevent_s, htimer_s and hidle_s that the loop reads and writes. */
  datatype Event = Event(kind: Kind, priority: int, repeat: nat, active: bool, pending: bool, destroy: bool, next: Ptr)

  type Events = map<Ptr, Event>

  /** HEVENT_PRIORITY_INDEX */
  function PriorityIndex(priority: int): int { priority - LOWEST_PRIORITY }

  ghost predicate WellFormed(e: Event) {
    && 0 <= PriorityIndex(e.priority) < PRIORITY_SIZE
    && (e.kind.Timeout? ==> e.kind.ms >= 1)
    && e.repeat <= INFINITE && (!e.active ==> e.destroy)
  }

  // ---- firing

  /** if (repeat != INFINITE) --repeat, on 32 bits: a repeat of 0 wraps around to INFINITE. */
  function Dec(repeat: nat): nat {
    if repeat == INFINITE then repeat else if repeat == 0 then INFINITE else repeat - 1
  }

  function Ticked(e: Event): Event {
    e.(repeat := Dec(e.repeat), destroy := Dec(e.repeat) == 0)
  }

  /** What a timer or idle pass does to an event that fires, apart from its place in a list. */
  ghost predicate Fired(e: Event, e': Event) {
    e' == Ticked(e).(pending := true, next := e'.next)
  }

  /** The first of d, d + step, d + 2 * step, ... after now. */
  function NextDue(d: int, step: nat, now: int): (r: int)
    requires step >= 1
    ensures r > now && r >= d && (r == d || r - step <= now)
    decreases if d <= now then now - d + 1 else 0
  {
    if d > now then d else NextDue(d + step, step, now)
  }

  /** How many times the due time is advanced to pass now. */
  function Turns(d: int, step: nat, now: int): nat
    requires step >= 1
    decreases if d <= now then now - d + 1 else 0
  {
    if d > now then 0 else 1 + Turns(d + step, step, now)
  }

  lemma {:induction false} NextDueOnGrid(d: int, step: nat, now: int)
    requires step >= 1
    ensures NextDue(d, step, now) == d + Turns(d, step, now) * step
    decreases if d <= now then now - d + 1 else 0
  {
    if d <= now {
      NextDueOnGrid(d + step, step, now);
      assert (1 + Turns(d + step, step, now)) * step == step + Turns(d + step, step, now) * step;
    }
  }

  /** The due time a timer is put back with. */
  function Rearmed(kind: Kind, d: int, timeout: int, cron: int): int
    requires kind.Timeout? ==> kind.ms >= 1
  {
    match kind
    case Timeout(ms) => NextDue(d, ms * 1000, timeout)
    case Period => cron * 1000000
    case Idle => d
  }

  /** A timer between two rounds of the loop: alive until its repeat count has run out; fires counts its callbacks. */
  datatype Timer = Timer(e: Event, due: int, fires: nat)

  /** When a timer pass comes, and what cron_next_timeout then says. */
  datatype Tick = Tick(time: int, cron: int)

  /** What a timer pass does to one timer. */
  function Pass(x: Timer, t: Tick): Timer
    requires x.e.kind.Timeout? ==> x.e.kind.ms >= 1
  {
    if x.e.destroy || x.due > t.time then x
    else
      var e := Ticked(x.e);
      Timer(e, if e.destroy then x.due else Rearmed(e.kind, x.due, t.time, t.cron), x.fires + 1)
  }

  /** htimer_add: when a timer asked for ms milliseconds from now is first due, in microseconds. */
  function FirstDue(now: nat, ms: nat): int {
    var t := now + ms * 1000;
    if ms >= 1000 && ms % 100 == 0 then t / 100000 * 100000 else t
  }

  lemma FirstDueEarly(now: nat, ms: nat)
    ensures FirstDue(now, ms) <= now + ms * 1000 < FirstDue(now, ms) + 100000
    ensures if ms < 1000 || ms % 100 != 0 then FirstDue(now, ms) == now + ms * 1000 else FirstDue(now, ms) % 100000 == 0
  {
  }

  // ---- pending lists

  /** The list that starts at head and follows the pending_next fields. */
  ghost predicate Chain(events: Events, head: Ptr, list: seq<Ptr>)
    decreases |list|
  {
    if list == [] then head == 0
    else head == list[0] && head != 0 && head in events && Chain(events, events[head].next, list[1..])
  }

  lemma {:induction false} ChainFrame(events: Events, events': Events, head: Ptr, list: seq<Ptr>)
    requires Chain(events, head, list)
    requires forall p :: p in list && p in events ==> p in events' && events'[p].next == events[p].next
    ensures Chain(events', head, list)
    decreases |list|
  {
    if list != [] {
      ChainFrame(events, events', events[head].next, list[1..]);
    }
  }

  /** The lists hold exactly the pending events, each in the list of its priority. */
  ghost predicate Listed(events: Events, heads: seq<Ptr>, lists: seq<seq<Ptr>>) {
    && |heads| == PRIORITY_SIZE && |lists| == PRIORITY_SIZE
    && (forall i :: 0 <= i < PRIORITY_SIZE ==> Chain(events, heads[i], lists[i]) && NoDup(lists[i]))
    && (forall i, p :: 0 <= i < PRIORITY_SIZE && p in lists[i] ==>
          p in events && events[p].pending && PriorityIndex(events[p].priority) == i)
    && (forall p :: p in events && events[p].pending && 0 <= PriorityIndex(events[p].priority) < PRIORITY_SIZE ==>
          p in lists[PriorityIndex(events[p].priority)])
  }

  /** EVENT_PENDING on an event that is not pending. */
  lemma Push(events: Events, heads: seq<Ptr>, lists: seq<seq<Ptr>>, p: Ptr, e': Event)
    requires Listed(events, heads, lists) && p != 0 && p in events && !events[p].pending
    requires 0 <= PriorityIndex(events[p].priority) < PRIORITY_SIZE
    requires e'.priority == events[p].priority && e'.pending && e'.next == heads[PriorityIndex(events[p].priority)]
    ensures var i := PriorityIndex(events[p].priority);
      Listed(events[p := e'], heads[i := p], lists[i := [p] + lists[i]])
  {
    var i, events' := PriorityIndex(events[p].priority), events[p := e'];
    var heads', lists' := heads[i := p], lists[i := [p] + lists[i]];
    forall j | 0 <= j < PRIORITY_SIZE ensures p !in lists[j] {}
    forall j | 0 <= j < PRIORITY_SIZE ensures Chain(events', heads'[j], lists'[j]) && NoDup(lists'[j]) {
      ChainFrame(events, events', heads[j], lists[j]);
      if j == i { assert lists'[j][1..] == lists[j]; }
    }
    hide Chain, NoDup;
    forall j, q | 0 <= j < PRIORITY_SIZE && q in lists'[j]
      ensures q in events' && events'[q].pending && PriorityIndex(events'[q].priority) == j
    {
      assert q == p || q in lists[j];
    }
  }
}
