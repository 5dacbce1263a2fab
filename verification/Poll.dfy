/**
  The poll array, event/poll.c:42-99, over base/array.h, driven by hio_add and hio_del of
  event/hloop.c:837-883.
  */
module Poll {

  import opened Watch

  datatype Io = Io(active: bool, events: Mask, index: int)

  datatype PollFd = PollFd(fd: Fd, events: Mask)

  /** Slot i belongs to the io whose index is i, and asks for the events of that io. */
  predicate SlotOk(ios: map<Fd, Io>, slots: seq<PollFd>, i: nat)
    requires i < |slots|
  {
    slots[i].fd in ios && ios[slots[i].fd].index == i && slots[i].events == ios[slots[i].fd].events
  }

  /** An io that is to be watched has a slot, and its index leads there. */
  predicate IndexOk(ios: map<Fd, Io>, slots: seq<PollFd>, fd: Fd)
    requires fd in ios
  {
    var io := ios[fd];
    -1 <= io.index < |slots| && (io.index >= 0 ==> slots[io.index].fd == fd) &&
    (io.events != {} ==> io.index >= 0 && io.active)
  }

  /** The ios and the slots agree one to one. */
  ghost predicate Agree(ios: map<Fd, Io>, slots: seq<PollFd>) {
    (forall i :: 0 <= i < |slots| ==> SlotOk(ios, slots, i)) &&
    (forall fd :: fd in ios ==> IndexOk(ios, slots, fd))
  }

  /** No io has a slot that asks for nothing. */
  ghost predicate Tight(ios: map<Fd, Io>) {
    forall fd :: fd in ios && ios[fd].index >= 0 ==> ios[fd].events != {}
  }

  function Active(ios: map<Fd, Io>): set<Fd> { set fd | fd in ios && ios[fd].active }

  /** A slot of its own for an io that has none. */
  lemma Pushed(ios: map<Fd, Io>, slots: seq<PollFd>, fd: Fd, events: Mask)
    requires Agree(ios, slots) && fd in ios && ios[fd].index < 0 && ios[fd].active
    ensures Agree(ios[fd := Io(true, events, |slots|)], slots + [PollFd(fd, events)])
  {
    var m, s := ios[fd := Io(true, events, |slots|)], slots + [PollFd(fd, events)];
    forall i | 0 <= i < |s| ensures SlotOk(m, s, i) {
      if i < |slots| { assert SlotOk(ios, slots, i); }
    }
    forall k | k in m ensures IndexOk(m, s, k) { assert IndexOk(ios, slots, k); }
  }

  /** The events of an io and of its slot change together. */
  lemma Changed(ios: map<Fd, Io>, slots: seq<PollFd>, fd: Fd, events: Mask)
    requires Agree(ios, slots) && fd in ios && ios[fd].index >= 0 && (events != {} ==> ios[fd].active)
    ensures ios[fd].index < |slots|
    ensures Agree(ios[fd := ios[fd].(events := events)], slots[ios[fd].index := PollFd(fd, events)])
  {
    assert IndexOk(ios, slots, fd);
    var n := ios[fd].index;
    var m, s := ios[fd := ios[fd].(events := events)], slots[n := PollFd(fd, events)];
    forall i | 0 <= i < |s| ensures SlotOk(m, s, i) { assert SlotOk(ios, slots, i); }
    forall k | k in m ensures IndexOk(m, s, k) { assert IndexOk(ios, slots, k); }
  }

  /** The slot of an io is given up, and the last slot takes its place. */
  lemma Deleted(ios: map<Fd, Io>, slots: seq<PollFd>, fd: Fd)
    requires Agree(ios, slots) && fd in ios && ios[fd].index >= 0
    ensures 0 <= ios[fd].index < |slots|
    ensures var n, last := ios[fd].index, |slots| - 1;
      slots[last].fd in ios &&
      var moved := if n < last then ios[slots[last].fd := ios[slots[last].fd].(index := n)] else ios;
      Agree(moved[fd := ios[fd].(events := {}, index := -1)], slots[n := slots[last]][..last])
  {
    assert IndexOk(ios, slots, fd);
    var n, last := ios[fd].index, |slots| - 1;
    assert SlotOk(ios, slots, last);
    var g := slots[last].fd;
    var moved := if n < last then ios[g := ios[g].(index := n)] else ios;
    var m, s := moved[fd := ios[fd].(events := {}, index := -1)], slots[n := slots[last]][..last];
    forall i | 0 <= i < |s| ensures SlotOk(m, s, i) {
      assert SlotOk(ios, slots, i) && SlotOk(ios, slots, n);
    }
    forall k | k in m ensures IndexOk(m, s, k) { assert IndexOk(ios, slots, k); }
  }

  class Watcher {
    var ios: map<Fd, Io>
    var fds: array<PollFd>
    var size: nat
    var nios: int

    ghost predicate Valid()
      reads this, fds
    {
      size <= fds.Length && fds.Length >= 1 && Agree(ios, fds[..size]) && nios == |Active(ios)|
    }

    /** pollfds_init, with FDS_INIT_SIZE slots. */
    constructor (table: map<Fd, Io>)
      requires forall fd :: fd in table ==> table[fd] == Io(false, {}, -1)
      ensures Valid() && fresh(fds) && ios == table && size == 0
    {
      ios := table;
      fds := new PollFd[64](_ => PollFd(0, {}));
      size := 0;
      nios := 0;
      new;
      assert Active(ios) == {};
    }

    /** double_resize. */
    method DoubleResize()
      requires size <= fds.Length && fds.Length >= 1
      modifies `fds
      ensures fresh(fds) && fds.Length == 2 * old(fds.Length) && fds[..size] == old(fds[..size])
    {
      var copy := new PollFd[2 * fds.Length](_ => PollFd(0, {}));
      var i := 0;
      while i < size
        invariant i <= size && fds == old(fds)
        invariant copy[..i] == fds[..i]
        modifies copy
      {
        copy[i] := fds[i];
        i := i + 1;
      }
      fds := copy;
    }
  
    /**
      iowatcher_add_event. The io still has its old events; once the caller has added the new
      ones to it, ios and slots agree again.
      */
    method AddEvent(fd: Fd, events: Mask)
      requires Valid() && fd in ios && ios[fd].active
      modifies this, fds
      ensures size <= fds.Length && fds.Length >= 1 && (fds == old(fds) || fresh(fds)) && nios == old(nios)
      ensures ios.Keys == old(ios.Keys) && ios == old(ios)[fd := old(ios[fd]).(index := ios[fd].index)]
      ensures ios[fd].index >= 0 && (old(ios[fd]).index >= 0 ==> ios == old(ios))
      ensures Agree(ios[fd := ios[fd].(events := ios[fd].events + events)], fds[..size])
    {
      hide Agree;
      var idx := ios[fd].index;
      ghost var was, slots := ios, fds[..size];
      AgreeAt(ios, slots, fd);
      if idx < 0 {
        Pushed(was, slots, fd, events);
        idx := size;
        ios := ios[fd := ios[fd].(index := idx)];
        if idx == fds.Length {
          DoubleResize();
        }
        size := size + 1;
        fds[idx] := PollFd(fd, {});
        fds[idx] := PollFd(fd, fds[idx].events + events);
        assert {} + events == events;
        assert fds[..idx] == slots;
        assert fds[..size] == slots + [PollFd(fd, events)];
        assert ios[fd := ios[fd].(events := ios[fd].events + events)] == was[fd := Io(true, events, |slots|)];
      } else {
        assert fds[idx] == slots[idx] && fds[idx].fd == fd;
        Changed(was, slots, fd, was[fd].events + events);
        fds[idx] := PollFd(fd, fds[idx].events + events);
        assert fds[..size] == slots[idx := PollFd(fd, was[fd].events + events)];
        assert was[fd := was[fd].(index := idx)] == was;
      }
    }

    /**
      iowatcher_del_event. The io still has its old events; once the caller has taken the given
      ones from it, ios and slots agree again.
      */
    method DelEvent(fd: Fd, events: Mask)
      requires Valid() && fd in ios && ios[fd].events * events != {}
      modifies this, fds
      ensures size <= fds.Length && fds.Length >= 1 && fds == old(fds) && nios == old(nios)
      ensures Rest(old(ios), ios, fd) && fd in ios && ios[fd] == old(ios[fd]).(index := ios[fd].index)
      ensures ios[fd].index == if ios[fd].events <= events then -1 else old(ios[fd]).index
      ensures Agree(ios[fd := ios[fd].(events := ios[fd].events - events)], fds[..size])
    {
      hide Agree;
      var idx := ios[fd].index;
      ghost var was, slots := ios, fds[..size];
      AgreeAt(ios, slots, fd);
      assert fds[idx] == slots[idx] && fds[idx].fd == fd;
      fds[idx] := PollFd(fd, fds[idx].events - events);
      assert fds[idx].events == was[fd].events - events;
      Subset(was[fd].events, events);
      if fds[idx].events == {} {
        Deleted(was, slots, fd);
        ghost var last := |slots| - 1;
        // del_nomove
        size := size - 1;
        if idx < size {
          fds[idx] := fds[size];
        }
        assert fds[..size] == slots[idx := slots[last]][..last];
        if idx < size {
          assert fds[idx] == slots[last];
          var g := fds[idx].fd;
          ios := ios[g := ios[g].(index := idx)];
        }
        ios := ios[fd := ios[fd].(index := -1)];
        ghost var moved := if idx < last then was[slots[last].fd := was[slots[last].fd].(index := idx)] else was;
        AgreeAt(was, slots, slots[last].fd);
        assert ios[fd := ios[fd].(events := {})] == moved[fd := was[fd].(events := {}, index := -1)];
      } else {
        Changed(was, slots, fd, was[fd].events - events);
        assert fds[..size] == slots[idx := PollFd(fd, was[fd].events - events)];
        assert was[fd := was[fd].(index := idx)] == was;
      }
    }

    /** hio_add. */
    method HioAdd(fd: Fd, events: Mask)
      requires Valid() && fd in ios
      modifies this, fds
      ensures Valid() && (fds == old(fds) || fresh(fds))
      ensures Rest(old(ios), ios, fd) && ios[fd].active
      ensures ios[fd].events == if old(ios[fd]).events * events == {} then old(ios[fd]).events + events else old(ios[fd]).events
      ensures events != {} && old(Tight(ios)) ==> Tight(ios)
    {
      hide Agree, Active, Tight, Rest;
      ghost var start := ios;
      RestSame(start, fd);
      if !ios[fd].active {
        Activated(ios, fds[..size], fd);
        RestSet(start, ios, fd, ios[fd].(active := true));
        ios := ios[fd := ios[fd].(active := true)];
        nios := nios + 1;
      }
      if ios[fd].events * events == {} {
        ghost var was := ios;
        AddEvent(fd, events);
        var io := ios[fd].(events := ios[fd].events + events);
        assert ios[fd := io] == was[fd := io];
        RestSet(start, was, fd, io);
        ActiveSame(was, fd, io);
        ios := ios[fd := io];
      }
      if start[fd].index >= 0 && Tight(start) { TightAt(start, fd); }
      assert events != {} && ios[fd].index >= 0 && Tight(start) ==> ios[fd].events != {};
      TightRest(start, ios, fd);
    }

    /** hio_del. */
    method HioDel(fd: Fd, events: Mask) returns (r: int)
      requires Valid() && fd in ios
      modifies this, fds
      ensures Valid() && fds == old(fds)
      ensures Rest(old(ios), ios, fd)
      ensures r == if old(ios[fd]).active then 0 else -1
      ensures r == -1 ==> ios == old(ios)
      ensures r == 0 ==> ios[fd].events == old(ios[fd]).events - events && ios[fd].active == (ios[fd].events != {})
      ensures old(Tight(ios)) ==> Tight(ios)
    {
      hide Agree, Active, Tight, Rest;
      ghost var start := ios;
      RestSame(start, fd);
      if !ios[fd].active { return -1; }
      if ios[fd].events * events != {} {
        DelEvent(fd, events);
        var io := ios[fd].(events := ios[fd].events - events);
        RestSet(start, ios, fd, io);
        ActiveRest(start, ios, fd);
        ActiveSame(ios, fd, io);
        ios := ios[fd := io];
      }
      Subset(start[fd].events, events);
      assert ios[fd].events == start[fd].events - events;
      if start[fd].index >= 0 && Tight(start) { TightAt(start, fd); }
      TightRest(start, ios, fd);
      if ios[fd].events == {} {
        Deactivated(ios, fds[..size], fd);
        RestSet(start, ios, fd, ios[fd].(active := false));
        nios := nios - 1;
        ios := ios[fd := ios[fd].(active := false)];
        TightRest(start, ios, fd);
      } else {
        EventsActive(ios, fds[..size], fd);
      }
      r := 0;
    }

    /**
      Any run of hio_add and hio_del: the events asked for are those of the calls, and the array
      holds one slot, with these events, for each io that has any.
      */
    method Drive(ops: seq<WatchOp>)
      requires Valid() && forall op :: op in ops ==> op.fd in ios
      modifies this, fds
      ensures Valid() && Levels(ios) == LevelsAfter(old(Levels(ios)), ops)
      ensures old(Tight(ios)) && (forall op :: op in ops && op.AddOp? ==> op.events != {}) ==> Tight(ios)
    {
      hide Tight, Agree, Rest, Active, Levels, Valid;
      var i := 0;
      ghost var start := Levels(ios);
      ghost var asking := Tight(ios) && forall op :: op in ops && op.AddOp? ==> op.events != {};
      assert ops[0..] == ops;
      while i < |ops|
        invariant i <= |ops| && Valid() && (fds == old(fds) || fresh(fds))
        invariant ios.Keys == old(ios.Keys) && Levels(ios).Keys == ios.Keys
        invariant LevelsAfter(Levels(ios), ops[i..]) == LevelsAfter(start, ops)
        invariant asking ==> Tight(ios)
      {
        var op := ops[i];
        assert op in ops && ops[i..][1..] == ops[i + 1..] && ops[i..][0] == op;
        ghost var was := ios;
        match op {
          case AddOp(fd, events) => HioAdd(fd, events);
          case DelOp(fd, events) => var _ := HioDel(fd, events);
        }
        LevelsRest(was, ios, op.fd);
        assert (ios[op.fd].active, ios[op.fd].events) == LevelAfter(Levels(was)[op.fd], op);
        i := i + 1;
      }
    }
  }

  function Levels(ios: map<Fd, Io>): (r: map<Fd, Level>)
    ensures r.Keys == ios.Keys
  {
     map fd | fd in ios :: (ios[fd].active, ios[fd].events)
  }

  lemma LevelsRest(old': map<Fd, Io>, now: map<Fd, Io>, fd: Fd)
    requires Rest(old', now, fd) && fd in old'
    ensures now.Keys == old'.Keys && fd in now && Levels(old')[fd] == (old'[fd].active, old'[fd].events)
    ensures Levels(now) == Levels(old')[fd := (now[fd].active, now[fd].events)]
  {
    forall k | k in now && k != fd ensures Levels(now)[k] == Levels(old')[k] {
      assert now[k] == old'[k].(index := now[k].index);
    }
  }

  lemma EventsActive(ios: map<Fd, Io>, slots: seq<PollFd>, fd: Fd)
    requires Agree(ios, slots) && fd in ios && ios[fd].events != {}
    ensures ios[fd].active
  {
    assert IndexOk(ios, slots, fd);
  }

  lemma RestSame(ios: map<Fd, Io>, fd: Fd)
    requires fd in ios
    ensures Rest(ios, ios, fd)
  {
  }

  lemma RestSet(old': map<Fd, Io>, now: map<Fd, Io>, fd: Fd, io: Io)
    requires Rest(old', now, fd)
    ensures Rest(old', now[fd := io], fd)
  {
  }

  lemma ActiveSame(ios: map<Fd, Io>, fd: Fd, io: Io)
    requires fd in ios && io.active == ios[fd].active
    ensures Active(ios[fd := io]) == Active(ios)
  {
  }

  lemma ActiveRest(old': map<Fd, Io>, now: map<Fd, Io>, fd: Fd)
    requires Rest(old', now, fd) && fd in old' && now[fd].active == old'[fd].active
    ensures Active(old') == Active(now)
  {
    forall k | k in now ensures now[k].active == old'[k].active { if k != fd { assert now[k] == old'[k].(index := now[k].index); } }
  }

  lemma TightAt(ios: map<Fd, Io>, fd: Fd)
    requires Tight(ios) && fd in ios && ios[fd].index >= 0
    ensures ios[fd].events != {}
  {
  }

  lemma TightRest(old': map<Fd, Io>, now: map<Fd, Io>, fd: Fd)
    requires Rest(old', now, fd)
    ensures Tight(old') && fd in now && (now[fd].index >= 0 ==> now[fd].events != {}) ==> Tight(now)
  {
    if Tight(old') && (now[fd].index >= 0 ==> now[fd].events != {}) {
      forall k | k in now && now[k].index >= 0 ensures now[k].events != {} {
        if k != fd { TightAt(old', k); }
      }
    }
  }

  /** What an operation on one io leaves of the others: all but their place in the array. */
  predicate Rest(old': map<Fd, Io>, now: map<Fd, Io>, fd: Fd) {
    now.Keys == old'.Keys && fd in now &&
    forall k :: k in now && k != fd ==> now[k] == old'[k].(index := now[k].index) && (now[k].index >= 0 <==> old'[k].index >= 0)
  }

  lemma AgreeAt(ios: map<Fd, Io>, slots: seq<PollFd>, fd: Fd)
    requires Agree(ios, slots) && fd in ios
    ensures IndexOk(ios, slots, fd)
    ensures ios[fd].index >= 0 ==> SlotOk(ios, slots, ios[fd].index)
    ensures forall i :: 0 <= i < |slots| ==> slots[i].fd in ios && ios[slots[i].fd].index == i
  {
    forall i | 0 <= i < |slots| ensures slots[i].fd in ios && ios[slots[i].fd].index == i { assert SlotOk(ios, slots, i); }
  }

  lemma Activated(ios: map<Fd, Io>, slots: seq<PollFd>, fd: Fd)
    requires Agree(ios, slots) && fd in ios && !ios[fd].active
    ensures var m := ios[fd := ios[fd].(active := true)]; Agree(m, slots) && |Active(m)| == |Active(ios)| + 1
  {
    var m := ios[fd := ios[fd].(active := true)];
    forall i | 0 <= i < |slots| ensures SlotOk(m, slots, i) { assert SlotOk(ios, slots, i); }
    forall k | k in m ensures IndexOk(m, slots, k) { assert IndexOk(ios, slots, k); }
    assert Active(m) == Active(ios) + {fd};
  }

  lemma Deactivated(ios: map<Fd, Io>, slots: seq<PollFd>, fd: Fd)
    requires Agree(ios, slots) && fd in ios && ios[fd].active && ios[fd].events == {}
    ensures var m := ios[fd := ios[fd].(active := false)]; Agree(m, slots) && |Active(m)| == |Active(ios)| - 1
  {
    var m := ios[fd := ios[fd].(active := false)];
    forall i | 0 <= i < |slots| ensures SlotOk(m, slots, i) { assert SlotOk(ios, slots, i); }
    forall k | k in m ensures IndexOk(m, slots, k) { assert IndexOk(ios, slots, k); }
    assert Active(m) == Active(ios) - {fd};
    assert fd in Active(ios);
  }
}
