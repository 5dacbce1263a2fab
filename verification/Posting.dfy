/**
  Posting events to a loop from other threads: hloop_post_event and eventfd_read_cb of
  event/hloop.c, and the functors that EventLoop::postEvent of evpp/EventLoop.h queues above them.

  A step is what one thread does between two points where another may come in.  A poster holds
  custom_events_mutex from its write to the event fd until its push; the loop thread reads the
  fd without the mutex and takes it to pop.
  */
module Posting {

  import opened Basics

  type Id = nat

  /** Call runs a functor of the C++ layer (onCustomEvent); Raw is any other posted event. */
  datatype Ev = Raw(id: Id) | Call

  datatype Mutex = Free | Held(ev: Ev)

  datatype State = State(
    queue: seq<Ev>, // custom_events
    wake: nat, // unread wake-ups in the event fd
    claimed: nat, // wake-ups read by eventfd_read_cb and not served yet
    mutex: Mutex, // held by a poster that has written a wake-up and not pushed its event
    posted: seq<Ev>, // the events of all successful posts, in the order of their pushes
    ran: seq<Ev>, // the events popped and run by the loop thread
    functors: seq<Id>, // customEvents
    pushed: seq<Id>, // all functors ever pushed
    called: seq<Id>, // all functors run
    between: nat, // threads between customEvents.push and hloop_post_event
    taking: bool, // the loop thread is in onCustomEvent, before front()
    failed: nat // posts of functors that failed
  )

  datatype Step =
    | WriteRaw(id: Id) // hloop_post_event, up to the successful write
    | PushFunctor(f: Id) // EventLoop::postEvent, the locked push
    | WriteCall // its hloop_post_event, up to the successful write
    | FailCall // its hloop_post_event, failing
    | PushBack // the end of a successful hloop_post_event
    | ReadFd(n: nat) // the loop thread reads n wake-ups
    | Pop // one turn of the loop of eventfd_read_cb
    | TakeFront // onCustomEvent

  ghost predicate Initial(s: State) { s == State([], 0, 0, Free, [], [], [], [], [], 0, false, 0) }

  predicate Enabled(s: State, step: Step) {
    match step
    case WriteRaw(_) => s.mutex.Free?
    case PushFunctor(_) => true
    case WriteCall => s.mutex.Free? && s.between > 0
    case FailCall => s.mutex.Free? && s.between > 0
    case PushBack => s.mutex.Held?
    case ReadFd(n) => s.claimed == 0 && !s.taking && 1 <= n <= s.wake
    case Pop => s.claimed > 0 && !s.taking && s.mutex.Free?
    case TakeFront => s.taking
  }

  function Apply(s: State, step: Step): State
    requires Enabled(s, step)
  {
    match step
    case WriteRaw(id) => s.(wake := s.wake + 1, mutex := Held(Raw(id)))
    case PushFunctor(f) => s.(functors := s.functors + [f], pushed := s.pushed + [f], between := s.between + 1)
    case WriteCall => s.(wake := s.wake + 1, mutex := Held(Call), between := s.between - 1)
    case FailCall => s.(between := s.between - 1, failed := s.failed + 1)
    case PushBack => s.(queue := s.queue + [s.mutex.ev], posted := s.posted + [s.mutex.ev], mutex := Free)
    case ReadFd(n) => s.(wake := s.wake - n, claimed := n)
    case Pop =>
      if s.queue == [] then s.(claimed := 0) // the loop gives up
      else s.(queue := s.queue[1..], ran := s.ran + [s.queue[0]], claimed := s.claimed - 1, taking := s.queue[0].Call?)
    case TakeFront =>
      if s.functors == [] then s.(taking := false) // front of an empty queue
      else s.(functors := s.functors[1..], called := s.called + [s.functors[0]], taking := false)
  }

  /** Any interleaving: steps that are not enabled do not happen. */
  function Run(s: State, steps: seq<Step>): State
    decreases |steps|
  {
    if steps == [] then s
    else Run(if Enabled(s, steps[0]) then Apply(s, steps[0]) else s, steps[1..])
  }

  function Calls(q: seq<Ev>): nat {
    if q == [] then 0 else (if q[0].Call? then 1 else 0) + Calls(q[1..])
  }

  ghost predicate Inv(s: State) {
    // a wake-up for every queued event, written before the event is pushed
    && s.wake + s.claimed == |s.queue| + (if s.mutex.Held? then 1 else 0)
    && s.posted == s.ran + s.queue
    // a queued functor for every posted call that has not taken one, and for every failed post
    && |s.functors| == s.between + (if s.mutex == Held(Call) then 1 else 0) + Calls(s.queue) + (if s.taking then 1 else 0) + s.failed
    && s.pushed == s.called + s.functors
  }

  lemma {:induction false} CallsAppend(q: seq<Ev>, ev: Ev)
    ensures Calls(q + [ev]) == Calls(q) + if ev.Call? then 1 else 0
  {
    if q == [] {
      assert [ev][1..] == [];
    } else {
      CallsAppend(q[1..], ev);
      assert (q + [ev])[1..] == q[1..] + [ev];
    }
  }

  lemma StepKeeps(s: State, step: Step)
    requires Inv(s) && Enabled(s, step)
    ensures Inv(Apply(s, step))
  {
    if step.PushBack? { CallsAppend(s.queue, s.mutex.ev); }
    if step.Pop? && s.queue != [] { assert s.queue == [s.queue[0]] + s.queue[1..]; }
    if step.TakeFront? && s.functors != [] { assert s.functors == [s.functors[0]] + s.functors[1..]; }
  }

  lemma StartKeeps(s: State)
    requires Initial(s)
    ensures Inv(s)
  {
    assert Calls(s.queue) == 0;
  }

  lemma {:induction false} RunKeeps(s: State, steps: seq<Step>)
    requires Inv(s)
    ensures Inv(Run(s, steps))
    decreases |steps|
  {
    if steps != [] {
      if Enabled(s, steps[0]) { StepKeeps(s, steps[0]); }
      RunKeeps(if Enabled(s, steps[0]) then Apply(s, steps[0]) else s, steps[1..]);
    }
  }

  /** In every run, the loop thread finds an event for every wake-up and a functor for every call. */
  lemma {:induction false} NeverEmpty(start: State, steps: seq<Step>)
    requires Initial(start)
    ensures var s := Run(start, steps);
      && (Enabled(s, Pop) ==> s.queue != [])
      && (Enabled(s, TakeFront) ==> s.functors != [])
  {
    hide Run, Initial;
    StartKeeps(start);
    RunKeeps(start, steps);
  }

  // ---- what a run does, from its steps alone

  /** The steps of a run that happen. */
  function Happened(s: State, steps: seq<Step>): seq<Step>
    decreases |steps|
  {
    if steps == [] then []
    else if Enabled(s, steps[0]) then [steps[0]] + Happened(Apply(s, steps[0]), steps[1..])
    else Happened(s, steps[1..])
  }

  /** The events posted by the steps. */
  function Posts(h: seq<Step>): seq<Ev> {
    if h == [] then []
    else (match h[0] case WriteRaw(id) => [Raw(id)] case WriteCall => [Call] case _ => []) + Posts(h[1..])
  }

  /** The functors pushed by the steps. */
  function Functors(h: seq<Step>): seq<Id> {
    if h == [] then [] else (match h[0] case PushFunctor(f) => [f] case _ => []) + Functors(h[1..])
  }

  /** The wake-ups read by the steps. */
  function ReadBy(h: seq<Step>): nat {
    if h == [] then 0 else (match h[0] case ReadFd(n) => n case _ => 0) + ReadBy(h[1..])
  }

  function Count(h: seq<Step>, step: Step): nat {
    if h == [] then 0 else (if h[0] == step then 1 else 0) + Count(h[1..], step)
  }

  /** The event that a poster has under way. */
  function Underway(s: State): seq<Ev> { if s.mutex.Held? then [s.mutex.ev] else [] }

  /** The steps h lead from s to s'. */
  ghost predicate Accounts(s: State, h: seq<Step>, s': State) {
    // every event under its own identity, in the order of the writes
    && s'.posted + Underway(s') == s.posted + Underway(s) + Posts(h)
    && s'.pushed == s.pushed + Functors(h)
    && |s'.posted| == |s.posted| + Count(h, PushBack)
    && s'.wake + ReadBy(h) == s.wake + |Posts(h)|
    && |s'.ran| == |s.ran| + Count(h, Pop) && |s'.called| == |s.called| + Count(h, TakeFront)
    && s'.failed == s.failed + Count(h, FailCall)
    && s'.between + Count(h, WriteCall) + Count(h, FailCall) == s.between + |Functors(h)|
  }

  /** One step accounts for itself. */
  lemma StepAccounts(s: State, step: Step)
    requires Inv(s) && Enabled(s, step)
    ensures Accounts(s, [step], Apply(s, step))
  {
    OneStep(step);
    OneCount(step, PushBack);
    OneCount(step, Pop);
    OneCount(step, TakeFront);
    OneCount(step, FailCall);
    OneCount(step, WriteCall);
    hide Posts, Functors, ReadBy, Count, Calls;
    assert s.posted + Underway(s) + [] == s.posted + Underway(s) && s.pushed + [] == s.pushed;
  }

  lemma OneStep(step: Step)
    ensures Posts([step]) == match step case WriteRaw(id) => [Raw(id)] case WriteCall => [Call] case _ => []
    ensures Functors([step]) == match step case PushFunctor(f) => [f] case _ => []
    ensures ReadBy([step]) == match step case ReadFd(n) => n case _ => 0
  {
    assert [step][1..] == [];
  }

  lemma OneCount(step: Step, x: Step)
    ensures Count([step], x) == if step == x then 1 else 0
  {
    assert [step][1..] == [];
  }

  lemma {:induction false} AccountsJoin(s: State, step: Step, s': State, h: seq<Step>, s'': State)
    requires Accounts(s, [step], s') && Accounts(s', h, s'')
    ensures Accounts(s, [step] + h, s'')
  {
    hide Posts, Functors, ReadBy, Count, Underway;
    HistoryJoin(step, h);
    CountJoin(step, h, PushBack);
    CountJoin(step, h, Pop);
    CountJoin(step, h, TakeFront);
    CountJoin(step, h, FailCall);
    CountJoin(step, h, WriteCall);
    Associative(s.posted + Underway(s), Posts([step]), Posts(h));
    Associative(s.pushed, Functors([step]), Functors(h));
  }

  lemma HistoryJoin(step: Step, h: seq<Step>)
    ensures Posts([step] + h) == Posts([step]) + Posts(h) && Functors([step] + h) == Functors([step]) + Functors(h)
    ensures ReadBy([step] + h) == ReadBy([step]) + ReadBy(h)
  {
    assert ([step] + h)[1..] == h && ([step] + h)[0] == step;
    OneStep(step);
  }

  lemma CountJoin(step: Step, h: seq<Step>, x: Step)
    ensures Count([step] + h, x) == Count([step], x) + Count(h, x)
  {
    assert ([step] + h)[1..] == h && [step][1..] == [];
  }

  /** Every run does what its steps say. */
  lemma {:induction false} RunAccounts(s: State, steps: seq<Step>)
    requires Inv(s)
    ensures Accounts(s, Happened(s, steps), Run(s, steps))
    decreases |steps|
  {
    if steps == [] {
      assert s.posted + Underway(s) + [] == s.posted + Underway(s);
    } else if Enabled(s, steps[0]) {
      var s' := Apply(s, steps[0]);
      StepKeeps(s, steps[0]);
      StepAccounts(s, steps[0]);
      RunAccounts(s', steps[1..]);
      hide Accounts, Inv, Apply, Enabled;
      AccountsJoin(s, steps[0], s', Happened(s', steps[1..]), Run(s', steps[1..]));
    } else {
      RunAccounts(s, steps[1..]);
    }
  }

  /**
    In every run the loop thread has run, in their order and each once, the first of the events that
    were posted, and of the functors that were pushed: as many as it has popped and taken.
    */
  lemma {:induction false} RunsInOrder(start: State, steps: seq<Step>)
    requires Initial(start)
    ensures var s, h := Run(start, steps), Happened(start, steps);
      && s.ran <= Posts(h) && |s.ran| == Count(h, Pop)
      && s.called <= Functors(h) && |s.called| == Count(h, TakeFront)
  {
    hide Run, Initial, Happened, Posts, Functors, Count, ReadBy;
    StartKeeps(start);
    Began(start, Posts(Happened(start, steps)), Functors(Happened(start, steps)));
    RunKeeps(start, steps);
    RunAccounts(start, steps);
    var s, h := Run(start, steps), Happened(start, steps);
    assert s.posted <= s.posted + Underway(s) == Posts(h);
  }

  lemma Began(start: State, posts: seq<Ev>, functors: seq<Id>)
    requires Initial(start)
    ensures start.posted + Underway(start) + posts == posts && start.pushed + functors == functors
    ensures start.failed == start.between == start.wake == 0 && start.ran == [] && start.called == []
  {
  }

  /** The steps of the loop thread. */
  predicate LoopStep(step: Step) { step.ReadFd? || step.Pop? || step.TakeFront? }

  /** While the posters are quiet the loop thread has only this many steps left to take. */
  function Backlog(s: State): nat { 3 * s.wake + 2 * s.claimed + if s.taking then 1 else 0 }

  lemma LoopProgress(s: State, step: Step)
    requires Inv(s) && LoopStep(step) && Enabled(s, step)
    ensures Backlog(Apply(s, step)) < Backlog(s)
  {
  }

  /** The loop thread has nothing more to do, and no poster is under way. */
  ghost predicate AtRest(s: State) {
    s.mutex.Free? && s.between == 0 && forall step :: LoopStep(step) ==> !Enabled(s, step)
  }

  lemma RestEmpty(s: State)
    requires Inv(s) && AtRest(s)
    ensures s.queue == [] && s.ran == s.posted && s.wake == s.claimed == 0 && !s.taking
    ensures |s.functors| == s.failed <= |s.pushed| && s.called == s.pushed[..|s.pushed| - s.failed]
  {
    assert LoopStep(Pop) && LoopStep(TakeFront) && LoopStep(ReadFd(1));
    assert !Enabled(s, TakeFront) && !Enabled(s, Pop) && !Enabled(s, ReadFd(1));
  }

  /**
    No event is stranded: at rest every event whose post began has run, in order, and of the functors
    all but the last ones pushed, as many as posts of functors failed.
    */
  lemma {:induction false} NothingStranded(start: State, steps: seq<Step>)
    requires Initial(start)
    ensures var s, h := Run(start, steps), Happened(start, steps);
      AtRest(s) ==>
        && s.queue == [] && s.ran == Posts(h)
        && |s.functors| == Count(h, FailCall) <= |Functors(h)|
        && s.called == Functors(h)[..|Functors(h)| - Count(h, FailCall)]
  {
    hide Run, Initial, Happened, Posts, Functors, Count, ReadBy;
    StartKeeps(start);
    Began(start, Posts(Happened(start, steps)), Functors(Happened(start, steps)));
    RunKeeps(start, steps);
    RunAccounts(start, steps);
    var s, h := Run(start, steps), Happened(start, steps);
    if AtRest(s) {
      RestEmpty(s);
      hide AtRest, Inv;
      assert s.posted + [] == s.posted;
    }
  }

  /** All functors are run in the end exactly when no post of a functor failed. */
  lemma {:induction false} AllCalledUnlessFailed(start: State, steps: seq<Step>)
    requires Initial(start)
    ensures var s, h := Run(start, steps), Happened(start, steps);
      AtRest(s) ==> (s.called == Functors(h) <==> FailCall !in h)
  {
    hide Run, Initial, Happened;
    NothingStranded(start, steps);
    var s, h := Run(start, steps), Happened(start, steps);
    if AtRest(s) {
      hide AtRest;
      CountIn(h, FailCall);
      assert s.called == Functors(h)[..|Functors(h)| - Count(h, FailCall)];
    }
  }

  lemma {:induction false} CountIn(h: seq<Step>, step: Step)
    ensures Count(h, step) == 0 <==> step !in h
  {
    if h != [] {
      CountIn(h[1..], step);
      assert h == [h[0]] + h[1..];
    }
  }

  // ---- every post can be served

  /** At rest, a posted event is run by the next wake-up. */
  lemma PostRuns(s: State, id: Id)
    requires Inv(s) && AtRest(s)
    ensures var s' := Run(s, [WriteRaw(id), PushBack, ReadFd(1), Pop]);
      Inv(s') && AtRest(s') && s'.ran == s.ran + [Raw(id)] && s'.called == s.called
  {
    RestEmpty(s);
    var s1 := Apply(s, WriteRaw(id));
    var s2 := Apply(s1, PushBack);
    var s3 := Apply(s2, ReadFd(1));
    var s4 := Apply(s3, Pop);
    Four(s, WriteRaw(id), PushBack, ReadFd(1), Pop);
    RunKeeps(s, [WriteRaw(id), PushBack, ReadFd(1), Pop]);
  }

  lemma Four(s: State, a: Step, b: Step, c: Step, d: Step)
    requires Enabled(s, a) && Enabled(Apply(s, a), b) && Enabled(Apply(Apply(s, a), b), c) && Enabled(Apply(Apply(Apply(s, a), b), c), d)
    ensures Run(s, [a, b, c, d]) == Apply(Apply(Apply(Apply(s, a), b), c), d)
  {
    var s1, s2, s3 := Apply(s, a), Apply(Apply(s, a), b), Apply(Apply(Apply(s, a), b), c);
    hide Apply, Enabled;
    assert [a, b, c, d][1..] == [b, c, d] && [b, c, d][1..] == [c, d] && [c, d][1..] == [d] && [d][1..] == [];
    assert Run(s3, [d]) == Apply(s3, d);
    assert Run(s2, [c, d]) == Run(s3, [d]);
    assert Run(s1, [b, c, d]) == Run(s2, [c, d]);
  }

  /** At rest, with no failed post behind, a posted functor is run by the next wake-up. */
  lemma FunctorRuns(s: State, f: Id)
    requires Inv(s) && AtRest(s) && s.failed == 0
    ensures var s' := Run(s, [PushFunctor(f), WriteCall, PushBack, ReadFd(1), Pop, TakeFront]);
      Inv(s') && AtRest(s') && s'.called == s.called + [f] && s'.failed == 0
  {
    RestEmpty(s);
    var s2 := Apply(Apply(s, PushFunctor(f)), WriteCall);
    Four(s2, PushBack, ReadFd(1), Pop, TakeFront);
    var steps := [PushFunctor(f), WriteCall, PushBack, ReadFd(1), Pop, TakeFront];
    assert steps[1..] == [WriteCall, PushBack, ReadFd(1), Pop, TakeFront] && steps[1..][1..] == [PushBack, ReadFd(1), Pop, TakeFront];
    RunKeeps(s, steps);
  }
}
