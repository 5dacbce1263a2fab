/**
  The kqueue change list, event/kqueue.c:58-131, driven by hio_add and hio_del of
  event/hloop.c:837-883.
  */
module Kqueue {

  import opened Watch

  /** The io of a descriptor, with event_index[0] for reading and event_index[1] for writing. */
  datatype KIo = KIo(active: bool, events: Mask, rd: int, wr: int) {
    function Index(d: Dir): int { if d.Read? then rd else wr }

    function SetIndex(d: Dir, i: int): KIo { if d.Read? then this.(rd := i) else this.(wr := i) }
  }

  datatype Flag = Add | Delete

  datatype Change = Change(ident: Fd, filter: Dir, flag: Flag)

  type Table = map<Fd, KIo>

  predicate SlotHolds(ios: Table, slots: seq<Change>, i: nat)
    requires i < |slots|
  {
    var c := slots[i];
    c.ident in ios && c.flag.Add? && ios[c.ident].Index(c.filter) == i
  }

  predicate IndexHolds(ios: Table, slots: seq<Change>, fd: Fd, d: Dir)
    requires fd in ios
  {
    var i := ios[fd].Index(d);
    -1 <= i < |slots| && (i >= 0 ==> slots[i] == Change(fd, d, Add))
  }

  /** The indices and the changes agree one to one. */
  ghost predicate OneToOne(ios: Table, slots: seq<Change>) {
    (forall i :: 0 <= i < |slots| ==> SlotHolds(ios, slots, i)) &&
    (forall fd, d :: fd in ios ==> IndexHolds(ios, slots, fd, d))
  }

  /** The kernel's filters after a change list. */
  function Submitted(kernel: set<(Fd, Dir)>, slots: seq<Change>): set<(Fd, Dir)>
    decreases |slots|
  {
    if slots == [] then kernel
    else
      var n := |slots| - 1;
      var before := Submitted(kernel, slots[..n]);
      var c := slots[n];
      if c.flag.Add? then before + {(c.ident, c.filter)} else before - {(c.ident, c.filter)}
  }

  /** The filters that the indices speak of. */
  function Watched(ios: Table): set<(Fd, Dir)> {
    (set fd | fd in ios && ios[fd].rd >= 0 :: (fd, Read)) + (set fd | fd in ios && ios[fd].wr >= 0 :: (fd, Write))
  }

  lemma WatchedIs(ios: Table, fd: Fd, d: Dir)
    ensures (fd, d) in Watched(ios) <==> fd in ios && ios[fd].Index(d) >= 0
  {
  }

  /** Changes that all add what is already there change nothing. */
  lemma {:induction false} SubmittedAgain(kernel: set<(Fd, Dir)>, slots: seq<Change>)
    requires forall i :: 0 <= i < |slots| ==> slots[i].flag.Add? && (slots[i].ident, slots[i].filter) in kernel
    ensures Submitted(kernel, slots) == kernel
    decreases |slots|
  {
    if slots != [] {
      var n := |slots| - 1;
      SubmittedAgain(kernel, slots[..n]);
      assert slots[n] in slots;
    }
  }

  lemma Again(ios: Table, slots: seq<Change>)
    requires OneToOne(ios, slots)
    ensures Submitted(Watched(ios), slots) == Watched(ios)
  {
    forall i | 0 <= i < |slots| ensures slots[i].flag.Add? && (slots[i].ident, slots[i].filter) in Watched(ios) {
      assert SlotHolds(ios, slots, i);
      WatchedIs(ios, slots[i].ident, slots[i].filter);
    }
    SubmittedAgain(Watched(ios), slots);
  }

  lemma Grown(ios: Table, slots: seq<Change>, fd: Fd, d: Dir)
    requires OneToOne(ios, slots) && fd in ios && ios[fd].Index(d) < 0
    ensures var m, s := ios[fd := ios[fd].SetIndex(d, |slots|)], slots + [Change(fd, d, Add)];
      OneToOne(m, s) && Watched(m) == Watched(ios) + {(fd, d)} && Submitted(Watched(ios), s) == Watched(m)
  {
    var m, s := ios[fd := ios[fd].SetIndex(d, |slots|)], slots + [Change(fd, d, Add)];
    forall i | 0 <= i < |s| ensures SlotHolds(m, s, i) {
      if i < |slots| { assert SlotHolds(ios, slots, i); }
    }
    forall k, e | k in m ensures IndexHolds(m, s, k, e) { assert IndexHolds(ios, slots, k, e); }
    assert Watched(m) == Watched(ios) + {(fd, d)};
    Again(ios, slots);
    assert s[..|slots|] == slots;
  }

  /** The table after __del_event: the slot that was last takes the place of the one given up. */
  function Shrunk(ios: Table, slots: seq<Change>, fd: Fd, d: Dir): Table
    requires fd in ios && 0 <= ios[fd].Index(d) < |slots| && slots[|slots| - 1].ident in ios
  {
    var n, c := ios[fd].Index(d), slots[|slots| - 1];
    var m := ios[fd := ios[fd].SetIndex(d, -1)];
    if n < |slots| - 1 then m[c.ident := m[c.ident].SetIndex(c.filter, n)] else m
  }

  lemma ShrunkHolds(ios: Table, slots: seq<Change>, fd: Fd, d: Dir)
    requires OneToOne(ios, slots) && fd in ios && ios[fd].Index(d) >= 0
    ensures ios[fd].Index(d) < |slots| && slots[|slots| - 1].ident in ios
    ensures var n, last := ios[fd].Index(d), |slots| - 1;
      OneToOne(Shrunk(ios, slots, fd, d), slots[n := slots[last]][..last])
  {
    assert IndexHolds(ios, slots, fd, d);
    var n, last := ios[fd].Index(d), |slots| - 1;
    assert SlotHolds(ios, slots, last) && SlotHolds(ios, slots, n);
    var m, s := Shrunk(ios, slots, fd, d), slots[n := slots[last]][..last];
    forall i | 0 <= i < |s| ensures SlotHolds(m, s, i) { assert SlotHolds(ios, slots, i); }
    forall k, e | k in m ensures IndexHolds(m, s, k, e) { assert IndexHolds(ios, slots, k, e); }
  }

  lemma ShrunkWatched(ios: Table, slots: seq<Change>, fd: Fd, d: Dir)
    requires OneToOne(ios, slots) && fd in ios && ios[fd].Index(d) >= 0
    ensures ios[fd].Index(d) < |slots| && slots[|slots| - 1].ident in ios
    ensures Watched(Shrunk(ios, slots, fd, d)) == Watched(ios) - {(fd, d)}
  {
    assert IndexHolds(ios, slots, fd, d) && SlotHolds(ios, slots, |slots| - 1);
    var m := Shrunk(ios, slots, fd, d);
    forall k: Fd, e: Dir ensures (k, e) in Watched(m) <==> (k, e) in Watched(ios) - {(fd, d)} {
      WatchedIs(m, k, e);
      WatchedIs(ios, k, e);
      if k in ios { assert IndexHolds(ios, slots, k, e); }
    }
  }

  /** The list that __del_event submits takes the filter out of the kernel and leaves the others. */
  lemma ShrunkKernel(ios: Table, slots: seq<Change>, fd: Fd, d: Dir)
    requires OneToOne(ios, slots) && fd in ios && ios[fd].Index(d) >= 0
    ensures var n, last := ios[fd].Index(d), |slots| - 1;
      n < |slots| &&
      Submitted(Watched(ios), slots[n := slots[last]][..last] + [Change(fd, d, Delete)]) == Watched(ios) - {(fd, d)}
  {
    assert IndexHolds(ios, slots, fd, d);
    var n, last := ios[fd].Index(d), |slots| - 1;
    var s := slots[n := slots[last]][..last];
    forall i | 0 <= i < |s| ensures s[i].flag.Add? && (s[i].ident, s[i].filter) in Watched(ios) {
      assert SlotHolds(ios, slots, i) && SlotHolds(ios, slots, last);
      WatchedIs(ios, s[i].ident, s[i].filter);
    }
    SubmittedAgain(Watched(ios), s);
    var t := s + [Change(fd, d, Delete)];
    assert t[..last] == s;
  }

  /** The table and the changes agree, and the kernel watches what the indices speak of. */
  ghost predicate Sound(ios: Table, slots: seq<Change>, kernel: set<(Fd, Dir)>) {
    OneToOne(ios, slots) && kernel == Watched(ios)
  }

  class Watcher {
    var ios: Table
    var changes: array<Change>
    var nchanges: nat
    ghost var kernel: set<(Fd, Dir)>

    ghost predicate Shaped()
      reads this, changes
    {
      nchanges <= changes.Length && changes.Length >= 1 && Sound(ios, changes[..nchanges], kernel)
    }

    /** Between calls of hio_add and hio_del the events of an io are those that are watched. */
    ghost predicate Valid()
      reads this, changes
    {
      Shaped() && forall fd :: fd in ios ==> Settled(ios[fd])
    }

    /** iowatcher_init. */
    constructor (table: Table)
      requires forall fd :: fd in table ==> table[fd] == KIo(false, {}, -1, -1)
      ensures Valid() && fresh(changes) && ios == table && kernel == {}
    {
      ios := table;
      changes := new Change[64](_ => Change(0, Read, Add));
      nchanges := 0;
      kernel := {};
      new;
      assert Watched(ios) == {};
    }

    /** kqueue_ctx_resize. */
    method Resize(n: nat)
      requires changes.Length <= n
      modifies `changes
      ensures fresh(changes) && changes.Length == n && changes[..old(changes.Length)] == old(changes[..])
    {
      var copy := new Change[n](_ => Change(0, Read, Add));
      var i := 0;
      while i < changes.Length
        invariant i <= changes.Length && changes == old(changes)
        invariant copy[..i] == changes[..i]
        modifies copy
      {
        copy[i] := changes[i];
        i := i + 1;
      }
      changes := copy;
    }

    /** __add_event. */
    method AddFilter(fd: Fd, d: Dir)
      requires Shaped() && fd in ios
      modifies this, changes
      ensures Shaped() && (changes == old(changes) || fresh(changes)) && kernel == old(kernel) + {(fd, d)}
      ensures ios == if old(ios[fd]).Index(d) < 0 then old(ios)[fd := old(ios[fd]).SetIndex(d, old(nchanges))] else old(ios)
    {
      hide OneToOne, Watched, Submitted;
      ghost var was, slots := ios, changes[..nchanges];
      var idx := ios[fd].Index(d);
      IndexAt(was, slots, fd, d);
      if idx < 0 {
        Grown(was, slots, fd, d);
        idx := nchanges;
        ios := ios[fd := ios[fd].SetIndex(d, idx)];
        nchanges := nchanges + 1;
        if idx == changes.Length {
          Resize(changes.Length * 2);
        }
        changes[idx] := Change(fd, d, Add);
        assert changes[..idx] == slots;
        assert changes[..nchanges] == slots + [Change(fd, d, Add)];
      } else {
        Again(was, slots);
        WatchedIs(was, fd, d);
        assert changes[idx] == slots[idx];
        assert kernel + {(fd, d)} == kernel;
      }
      ghost var list := changes[..nchanges];
      assert changes[idx].ident == fd;
      changes[idx] := changes[idx].(filter := d, flag := Add);
      assert changes[..nchanges] == list;
      kernel := Submitted(kernel, changes[..nchanges]);
    }

    /** __del_event. */
    method DelFilter(fd: Fd, d: Dir)
      requires Shaped() && fd in ios
      modifies this, changes
      ensures Shaped() && changes == old(changes) && kernel == old(kernel) - {(fd, d)}
      ensures ios.Keys == old(ios.Keys) && ios[fd].Index(d) == -1
      ensures forall k :: k in ios ==> Moved(old(ios[k]), ios[k], if k == fd then {d} else {})
    {
      hide OneToOne, Watched, Submitted, Moved;
      ghost var was, slots := ios, changes[..nchanges];
      var idx := ios[fd].Index(d);
      IndexAt(was, slots, fd, d);
      WatchedIs(was, fd, d);
      if idx < 0 {
        forall k | k in ios ensures Moved(ios[k], ios[k], if k == fd then {d} else {}) {
          StaysPut(ios[k], if k == fd then {d} else {});
        }
        return;
      }
      assert changes[idx] == slots[idx] && changes[idx].ident == fd;
      ShrunkHolds(was, slots, fd, d);
      ShrunkWatched(was, slots, fd, d);
      ShrunkKernel(was, slots, fd, d);
      ShrunkMoved(was, slots, fd, d);
      changes[idx] := changes[idx].(flag := Delete);
      ios := ios[fd := ios[fd].SetIndex(d, -1)];
      var last := nchanges - 1;
      if idx < last {
        var tmp := changes[idx];
        changes[idx] := changes[last];
        changes[last] := tmp;
        var c := changes[idx];
        if c.ident in ios {
          ios := ios[c.ident := ios[c.ident].SetIndex(c.filter, idx)];
        }
      }
      assert changes[..last] == slots[idx := slots[last]][..last];
      assert changes[..nchanges] == changes[..last] + [Change(fd, d, Delete)];
      kernel := Submitted(kernel, changes[..nchanges]);
      nchanges := nchanges - 1;
    }
  
    /** iowatcher_add_event. */
    method AddEvents(fd: Fd, events: Mask)
      requires Shaped() && fd in ios
      modifies this, changes
      ensures Shaped() && (changes == old(changes) || fresh(changes)) && kernel == old(kernel) + Filters(fd, events)
      ensures fd in ios && Grew(old(ios[fd]), ios[fd], events) && ios == old(ios)[fd := ios[fd]]
    {
      hide Sound;
      if Read in events { AddFilter(fd, Read); }
      if Write in events { AddFilter(fd, Write); }
      FiltersAre(fd, events);
    }

    /** iowatcher_del_event. */
    method DelEvents(fd: Fd, events: Mask)
      requires Shaped() && fd in ios
      modifies this, changes
      ensures Shaped() && changes == old(changes) && kernel == old(kernel) - Filters(fd, events)
      ensures ios.Keys == old(ios.Keys)
      ensures forall k :: k in ios ==> Moved(old(ios[k]), ios[k], if k == fd then events else {})
    {
      hide Sound;
      ghost var start, gone := ios, {};
      if Read in events {
        DelFilter(fd, Read);
        gone := {Read};
      }
      assert forall k :: k in ios ==> Moved(start[k], ios[k], if k == fd then gone else {});
      if Write in events {
        ghost var mid := ios;
        DelFilter(fd, Write);
        forall k | k in ios ensures Moved(start[k], ios[k], if k == fd then gone + {Write} else {}) {
          MovedTwice(start[k], mid[k], ios[k], if k == fd then gone else {}, if k == fd then {Write} else {});
        }
        gone := gone + {Write};
      }
      assert gone == events;
      FiltersAre(fd, events);
    }

    /** hio_add. */
    method HioAdd(fd: Fd, events: Mask)
      requires Valid() && fd in ios
      modifies this, changes
      ensures Valid() && (changes == old(changes) || fresh(changes)) && ios.Keys == old(ios.Keys)
      ensures ios[fd].active
      ensures ios[fd].events == if old(ios[fd]).events * events == {} then old(ios[fd]).events + events else old(ios[fd]).events
      ensures forall k :: k in ios && k != fd ==> ios[k] == old(ios[k])
      ensures kernel == old(kernel) + if old(ios[fd]).events * events == {} then Filters(fd, events) else {}
    {
      hide Sound, Settled, Grew, Filters;
      ghost var start := ios;
      assert Settled(start[fd]);
      if !ios[fd].active {
        SoundSet(ios, changes[..nchanges], kernel, fd, ios[fd].(active := true));
        ios := ios[fd := ios[fd].(active := true)];
      }
      ghost var mid := ios[fd];
      SettledActive(start[fd], mid);
      if ios[fd].events * events == {} {
        AddEvents(fd, events);
        var io := ios[fd].(events := ios[fd].events + events);
        SettledGrew(mid, ios[fd], events);
        SoundSet(ios, changes[..nchanges], kernel, fd, io);
        ios := ios[fd := io];
      }
    }

    /** hio_del. */
    method HioDel(fd: Fd, events: Mask) returns (r: int)
      requires Valid() && fd in ios
      modifies this, changes
      ensures Valid() && changes == old(changes) && ios.Keys == old(ios.Keys)
      ensures r == if old(ios[fd]).active then 0 else -1
      ensures r == -1 ==> ios == old(ios) && kernel == old(kernel)
      ensures r == 0 ==> ios[fd].events == old(ios[fd]).events - events && ios[fd].active == (ios[fd].events != {})
      ensures r == 0 ==> kernel == old(kernel) - if old(ios[fd]).events * events != {} then Filters(fd, events) else {}
      ensures forall k :: k in ios && k != fd ==> Moved(old(ios[k]), ios[k], {})
    {
      hide Sound, Settled, Moved, Filters;
      ghost var start := ios;
      forall k | k in start ensures Moved(start[k], start[k], {}) { StaysPut(start[k], {}); }
      if !ios[fd].active { return -1; }
      assert Settled(start[fd]);
      Subset(start[fd].events, events);
      if ios[fd].events * events != {} {
        DelEvents(fd, events);
        var io := ios[fd].(events := ios[fd].events - events);
        SoundSet(ios, changes[..nchanges], kernel, fd, io);
        forall k | k in ios ensures Settled(if k == fd then io else ios[k]) && io.events == start[fd].events - events {
          SettledMoved(start[k], ios[k], if k == fd then events else {});
          SettledMoved(start[fd], ios[fd], events);
        }
        ios := ios[fd := io];
      }
      SettledIdle(ios[fd]);
      if ios[fd].events == {} {
        SoundSet(ios, changes[..nchanges], kernel, fd, ios[fd].(active := false));
        ios := ios[fd := ios[fd].(active := false)];
      }
      r := 0;
    }

    /**
      Any run of hio_add and hio_del: the events asked for are those of the calls, and the kernel
      watches exactly these.
      */
    method Drive(ops: seq<WatchOp>)
      requires Valid() && forall op :: op in ops ==> op.fd in ios
      modifies this, changes
      ensures Valid() && KLevels(ios) == LevelsAfter(old(KLevels(ios)), ops)
      ensures forall fd, d :: (fd, d) in kernel <==> fd in ios && d in ios[fd].events
    {
      hide Sound, Settled, Moved, KLevels, Filters;
      var i := 0;
      ghost var start := KLevels(ios);
      assert ops[0..] == ops;
      while i < |ops|
        invariant i <= |ops| && Valid() && (changes == old(changes) || fresh(changes))
        invariant ios.Keys == old(ios.Keys)
        invariant LevelsAfter(KLevels(ios), ops[i..]) == LevelsAfter(start, ops)
      {
        var op := ops[i];
        assert op in ops && ops[i..][1..] == ops[i + 1..] && ops[i..][0] == op;
        ghost var was := ios;
        match op {
          case AddOp(fd, events) =>
            HioAdd(fd, events);
            forall k | k in ios && k != fd ensures Moved(was[k], ios[k], {}) { StaysPut(was[k], {}); }
          case DelOp(fd, events) => var _ := HioDel(fd, events);
        }
        KLevelsRest(was, ios, op.fd);
        assert (ios[op.fd].active, ios[op.fd].events) == LevelAfter(KLevels(was)[op.fd], op);
        i := i + 1;
      }
      KernelIs(ios, changes[..nchanges], kernel);
    }
  }

  function KLevels(ios: Table): (r: map<Fd, Level>)
    ensures r.Keys == ios.Keys
  {
    map fd | fd in ios :: (ios[fd].active, ios[fd].events)
  }

  lemma KLevelsRest(old': Table, now: Table, fd: Fd)
    requires now.Keys == old'.Keys && fd in now
    requires forall k :: k in now && k != fd ==> Moved(old'[k], now[k], {})
    ensures KLevels(old')[fd] == (old'[fd].active, old'[fd].events)
    ensures KLevels(now) == KLevels(old')[fd := (now[fd].active, now[fd].events)]
  {
  }

  lemma KernelIs(ios: Table, slots: seq<Change>, kernel: set<(Fd, Dir)>)
    requires Sound(ios, slots, kernel) && forall fd :: fd in ios ==> Settled(ios[fd])
    ensures forall fd, d :: (fd, d) in kernel <==> fd in ios && d in ios[fd].events
  {
    forall fd: Fd, d: Dir ensures (fd, d) in kernel <==> fd in ios && d in ios[fd].events {
      WatchedIs(ios, fd, d);
      if fd in ios { assert Settled(ios[fd]); }
    }
  }

  /** The same io, with indices for more events. */
  predicate Grew(old': KIo, now: KIo, more: Mask) {
    now == old'.(rd := now.rd, wr := now.wr) &&
    forall d :: now.Index(d) >= 0 <==> old'.Index(d) >= 0 || d in more
  }

  lemma SettledActive(old': KIo, now: KIo)
    requires Settled(old') && now == old'.(active := true)
    ensures Settled(now)
  {
    assert forall d :: now.Index(d) == old'.Index(d);
  }

  lemma SettledGrew(old': KIo, now: KIo, more: Mask)
    requires Settled(old') && Grew(old', now, more) && old'.active
    ensures now.events == old'.events && now.active && Settled(now.(events := now.events + more))
  {
    var io := now.(events := now.events + more);
    assert forall d :: io.Index(d) == now.Index(d);
  }

  lemma SettledMoved(old': KIo, now: KIo, gone: Mask)
    requires Settled(old') && Moved(old', now, gone)
    ensures now.events == old'.events && now.active == old'.active && Settled(now.(events := now.events - gone))
    ensures gone == {} ==> Settled(now)
  {
    var io := now.(events := now.events - gone);
    assert forall d :: io.Index(d) == now.Index(d);
  }

  lemma SettledIdle(io: KIo)
    requires Settled(io)
    ensures io.events == {} ==> Settled(io.(active := false))
    ensures io.events != {} ==> io.active
  {
    assert forall d :: io.(active := false).Index(d) == io.Index(d);
  }

  lemma MovedTwice(x: KIo, y: KIo, z: KIo, g: Mask, h: Mask)
    requires Moved(x, y, g) && Moved(y, z, h)
    ensures Moved(x, z, g + h)
  {
  }

  function Filters(fd: Fd, events: Mask): set<(Fd, Dir)> { set d | d in events :: (fd, d) }

  lemma FiltersAre(fd: Fd, events: Mask)
    ensures Filters(fd, events) ==
      (if Read in events then {(fd, Read)} else {}) + (if Write in events then {(fd, Write)} else {})
  {
    forall p | p in Filters(fd, events)
      ensures (p == (fd, Read) && Read in events) || (p == (fd, Write) && Write in events)
    {
      var d :| d in events && p == (fd, d);
      assert d == Read || d == Write;
    }
    assert Read in events ==> (fd, Read) in Filters(fd, events);
    assert Write in events ==> (fd, Write) in Filters(fd, events);
  }

  /** The flags and events of an io play no part in the agreement. */
  lemma SoundSet(ios: Table, slots: seq<Change>, kernel: set<(Fd, Dir)>, fd: Fd, io: KIo)
    requires Sound(ios, slots, kernel) && fd in ios && io.rd == ios[fd].rd && io.wr == ios[fd].wr
    ensures Sound(ios[fd := io], slots, kernel)
  {
    var m := ios[fd := io];
    forall i | 0 <= i < |slots| ensures SlotHolds(m, slots, i) { assert SlotHolds(ios, slots, i); }
    forall k, e | k in m ensures IndexHolds(m, slots, k, e) { assert IndexHolds(ios, slots, k, e); }
    assert Watched(m) == Watched(ios);
  }

  /** The events of an io are those it has an index for, and it is active when it has any. */
  predicate Settled(io: KIo) {
    (forall d :: d in io.events <==> io.Index(d) >= 0) && (io.events != {} ==> io.active)
  }

  /** The same io but for where its filters stand in the list; those of gone are not in it any more. */
  predicate Moved(old': KIo, now: KIo, gone: Mask) {
    now == old'.(rd := now.rd, wr := now.wr) &&
    forall d :: now.Index(d) >= 0 <==> old'.Index(d) >= 0 && d !in gone
  }

  lemma StaysPut(io: KIo, gone: Mask)
    requires forall d :: d in gone ==> io.Index(d) < 0
    ensures Moved(io, io, gone)
  {
  }

  lemma IndexAt(ios: Table, slots: seq<Change>, fd: Fd, d: Dir)
    requires OneToOne(ios, slots) && fd in ios
    ensures IndexHolds(ios, slots, fd, d)
  {
  }

  lemma ShrunkMoved(ios: Table, slots: seq<Change>, fd: Fd, d: Dir)
    requires OneToOne(ios, slots) && fd in ios && ios[fd].Index(d) >= 0
    ensures ios[fd].Index(d) < |slots| && slots[|slots| - 1].ident in ios
    ensures var m := Shrunk(ios, slots, fd, d);
      m.Keys == ios.Keys && m[fd].Index(d) == -1 &&
      forall k :: k in m ==> Moved(ios[k], m[k], if k == fd then {d} else {})
  {
    assert IndexHolds(ios, slots, fd, d) && SlotHolds(ios, slots, |slots| - 1);
    var m := Shrunk(ios, slots, fd, d);
    forall k | k in m ensures Moved(ios[k], m[k], if k == fd then {d} else {}) {
      assert forall e :: IndexHolds(ios, slots, k, e);
    }
  }
}
