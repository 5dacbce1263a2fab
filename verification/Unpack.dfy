/** event/unpack.c and the read buffer of event/hevent.c in unpack mode. */
module Unpack {

  import opened Basics
  import opened Codec
  import opened UnpackSpec
  import opened UnpackStall

  const HLOOP_READ_BUFSIZE := 8192
  const READ_BUFSIZE_HIGH_WATER := 65536
  const DEFAULT_PACKAGE_MAX_LENGTH := 0x200000

  function Min(a: int, b: int): int { if a < b then a else b }

  /** LIMIT(lower, v, upper) */
  function Limit(lower: int, v: int, upper: int): int { if v < lower then lower else if v > upper then upper else v }

  /** How the loop of hio_unpack_by_length_field ends; Repeats stands for not at all. */
  datatype Stop = Waits | Refuses | Repeats

  lemma Filled(a: array<Byte>, n: nat, lo: nat, hi: nat)
    requires lo <= hi <= n <= a.Length
    ensures a[lo..hi] == a[..n][lo..hi]
  {
    var l, r := a[lo..hi], a[..n][lo..hi];
    forall i | 0 <= i < |l| ensures l[i] == r[i] { assert l[i] == a[lo + i]; }
  }

  /** A buffer full from its start is doubled; one that three small packets have left less than half full is halved. */
  function Resized(len: nat, head: nat, tail: nat, small: nat): nat {
    if head == 0 && tail == len then 2 * len
    else if (head == tail || tail < len / 2) && len >= 2 && small >= 3 then len / 2
    else len
  }

  class Io {
    const u: Setting
    const max: nat // package_max_length, also max_read_bufsize
    var base: array<Byte> // readbuf.base; readbuf.len is its length
    var head: nat
    var tail: nat
    var smallCnt: nat // small_readbytes_cnt
    var log: seq<Bytes> // what read_cb has been given
    var closed: bool
    var stalled: bool // the loop of hio_unpack_by_length_field has met a package of length 0 and does not end
    ghost var received: Bytes // all bytes read so far

    /** The bytes received and not yet handled. */
    ghost function Kept(): Bytes
      requires head <= tail <= base.Length
      reads this, base
    {
      base[head..tail]
    }

    /** Between two reads: the kept bytes start the buffer, hold no whole packet, and leave room. */
    ghost predicate Valid()
      reads this, base
    {
      && ValidSetting(u) && !closed && !stalled && head == 0 && tail < base.Length
      && Sized(u, max, base.Length) && !FrontOf(u, base[..tail]).Packet?
      && (smallCnt > 0 ==> base.Length > READ_BUFSIZE_HIGH_WATER && !u.FixedLength?)
    }

    /** hio_alloc_readbuf */
    method AllocReadbuf(len: nat)
      requires tail <= base.Length && tail <= len
      modifies this`base, this`smallCnt, this`closed
      ensures len > max ==> closed && base == old(base) && smallCnt == old(smallCnt)
      ensures len <= max ==> fresh(base) && base.Length == len && closed == old(closed) && smallCnt == 0
      ensures base.Length >= tail && base[..tail] == old(base[..tail])
    {
      if len > max {
        closed := true;
        return;
      }
      var copy := new Byte[len](_ => 0);
      var n := Min(len, base.Length);
      for i := 0 to n
        modifies copy
        invariant copy.Length == len && n <= len && n <= base.Length && fresh(copy)
        invariant forall k :: 0 <= k < i ==> copy[k] == base[k]
        invariant base[..tail] == old(base[..tail])
      {
        copy[i] := base[i];
      }
      assert copy[..tail] == base[..tail];
      base := copy;
      smallCnt := 0;
    }

    /** hio_read_cb */
    method ReadCb(packet: Bytes)
      modifies this`log, this`smallCnt
      ensures log == old(log) + [packet]
      ensures smallCnt == if base.Length <= READ_BUFSIZE_HIGH_WATER then old(smallCnt)
                          else if |packet| < base.Length / 2 then old(smallCnt) + 1 else 0
    {
      log := log + [packet];
      if base.Length > READ_BUFSIZE_HIGH_WATER {
        if |packet| < base.Length / 2 {
          smallCnt := smallCnt + 1;
        } else {
          smallCnt := 0;
        }
      }
    }

    /** memmove of the n bytes at p to the front of the buffer. */
    method MoveToFront(p: nat, n: nat)
      requires p + n <= base.Length
      modifies base
      ensures base[..n] == old(base[p..p + n])
    {
      if p != 0 {
        for i := 0 to n
          invariant forall k :: 0 <= k < i ==> base[k] == old(base[p + k])
          invariant forall k :: i <= k < base.Length ==> base[k] == old(base[k])
        {
          base[i] := base[p + i];
        }
      }
    }

    /** hio_unpack_by_fixed_length */
    method UnpackFixed()
      requires u.FixedLength? && ValidSetting(u) && head == 0 && tail <= base.Length && base.Length == u.length && smallCnt == 0
      modifies this`log, this`smallCnt, this`tail, base
      ensures var r := Split(u, old(base[..tail]));
        log == old(log) + r.packets && tail <= base.Length && base[..tail] == r.rest && r.front.Partial?
      ensures smallCnt == 0 && tail < base.Length
    {
      assert base.Length >= u.length;
      ghost var whole := base[..tail];
      var p, remain := 0, tail;
      assert whole[0..] == whole;
      while remain >= u.length
        invariant p + remain == tail == |whole| && base[..tail] == whole
        invariant Progress(u, whole, p, old(log), log)
        invariant smallCnt == 0
        decreases remain
      {
        NextPacket(u, whole, p, old(log), log);
        assert base[p..p + u.length] == whole[p..p + u.length];
        ReadCb(base[p..p + u.length]);
        p, remain := p + u.length, remain - u.length;
      }
      Finished(u, whole, p, old(log), log);
      MoveToFront(p, remain);
      tail := remain;
    }

    /** The inner loop of hio_unpack_by_delimiter. */
    method MatchesAt(p: nat) returns (match_: bool)
      requires u.Delimiter? && p + |u.delimiter| <= tail <= base.Length
      ensures match_ == MatchAt(base[..tail], u.delimiter, p)
    {
      var d := u.delimiter;
      for i := 0 to |d|
        invariant forall k :: 0 <= k < i ==> base[p + k] == d[k]
      {
        if base[p + i] != d[i] {
          assert base[..tail][p..p + |d|][i] != d[i];
          return false;
        }
      }
      assert base[..tail][p..p + |d|] == d;
      return true;
    }

    /** The search loop of hio_unpack_by_delimiter, from p on. */
    method ScanDelimiter(p0: nat, ghost whole: Bytes) returns (sp: nat)
      requires u.Delimiter? && ValidSetting(u) && p0 <= tail <= base.Length && base[..tail] == whole
      requires forall q :: 0 <= q < p0 ==> !MatchAt(whole, u.delimiter, q)
      modifies this`log, this`smallCnt
      ensures sp <= tail && base[..tail] == whole && Progress(u, whole, sp, old(log), log)
      ensures FrontOf(u, whole[sp..]).Partial?
      ensures smallCnt > 0 ==> base.Length > READ_BUFSIZE_HIGH_WATER || smallCnt == old(smallCnt)
    {
      hide Progress, Split, IndexOf, MatchAt, FrontOf;
      Started(u, whole, log);
      sp := 0;
      var p, remain := p0, tail - p0;
      while remain >= |u.delimiter|
        invariant sp <= p && 0 <= remain && p + remain == tail == |whole| && base[..tail] == whole
        invariant Progress(u, whole, sp, old(log), log)
        invariant forall q :: sp <= q < p ==> !MatchAt(whole, u.delimiter, q)
        invariant smallCnt > 0 ==> base.Length > READ_BUFSIZE_HIGH_WATER || smallCnt == old(smallCnt)
        decreases remain
      {
        var match_ := MatchesAt(p);
        if match_ {
          FirstMatch(u, whole, sp, p);
          NextPacket(u, whole, sp, old(log), log);
          p, remain := p + |u.delimiter|, remain - |u.delimiter|;
          var packet := base[sp..p];
          forall i | 0 <= i < |packet| ensures packet[i] == whole[sp..p][i] { assert base[..tail][sp + i] == base[sp + i]; }
          assert packet == whole[sp..p];
          ReadCb(packet);
          sp := p;
        } else {
          p, remain := p + 1, remain - 1;
        }
      }
      NoMatch(u, whole, sp, p);
    }

    /** hio_unpack_by_delimiter */
    method UnpackDelimiter(buf: nat)
      requires u.Delimiter? && ValidSetting(u) && head == 0 && buf <= tail <= base.Length && Sized(u, max, base.Length)
      requires IndexOf(base[..buf], u.delimiter) < 0 && !closed && (smallCnt > 0 ==> base.Length > READ_BUFSIZE_HIGH_WATER)
      modifies this`log, this`smallCnt, this`tail, this`base, this`closed, base
      ensures var r := Split(u, old(base[..tail]));
        && log == old(log) + r.packets && r.front.Partial?
        && (closed <==> |r.rest| >= max)
        && (!closed ==> tail < base.Length && base[..tail] == r.rest && Sized(u, max, base.Length))
      ensures smallCnt > 0 ==> base.Length > READ_BUFSIZE_HIGH_WATER
      ensures base == old(base) || fresh(base)
    {
      hide Split, IndexOf, MatchAt, FrontOf;
      ghost var whole := base[..tail];
      var p: int := buf - |u.delimiter| + 1;
      if p < head { p := head; }
      NoneBefore(base[..buf], whole, u.delimiter);
      var sp := ScanDelimiter(p, whole);
      Finished(u, whole, sp, old(log), log);
      var remain := tail - sp;
      MoveToFront(sp, remain);
      tail := remain;
      if remain != 0 {
        if tail == base.Length {
          if base.Length >= max {
            closed := true;
            return;
          }
          AllocReadbuf(Min(base.Length * 2, max));
        }
      }
    }

    method ReadBig(lp: nat, n: nat) returns (bodyLen: int)
      requires lp + n <= base.Length
      ensures bodyLen == BytesValue(base[lp..lp + n]) % TWO32
    {
      bodyLen := 0;
      for i := 0 to n
        invariant bodyLen == BytesValue(base[lp..lp + i]) % TWO32
      {
        assert base[lp..lp + i + 1][..i] == base[lp..lp + i];
        Wrap32(BytesValue(base[lp..lp + i]), base[lp + i]);
        bodyLen := (bodyLen * 256 + base[lp + i]) % TWO32;
      }
    }

    method ReadLittle(lp: nat, n: nat) returns (bodyLen: int)
      requires lp + n <= base.Length
      ensures bodyLen == LittleEndian(base[lp..lp + n])
    {
      var weight: int;
      bodyLen, weight := 0, 1;
      for i := 0 to n
        invariant bodyLen == LittleEndian(base[lp..lp + i]) && weight == Pow256(i)
      {
        assert base[lp..lp + i + 1] == base[lp..lp + i] + [base[lp + i]];
        LittleEndianAppend(base[lp..lp + i], base[lp + i]);
        bodyLen := bodyLen + base[lp + i] * weight;
        weight := weight * 256;
      }
    }

    /** The length field of the package at p, as hio_unpack_by_length_field reads it. */
    method ReadField(p: nat, ghost whole: Bytes) returns (f: Decoded)
      requires u.LengthField? && ValidSetting(u) && p + u.bodyOffset <= tail <= base.Length && base[..tail] == whole
      ensures f == Field(u, whole[p..])
    {
      hide BytesValue, LittleEndian, VarintDecoded, Asn1Decoded, Pow256;
      var lp := p + u.fieldOffset;
      SliceDrop(whole, p, u.fieldOffset, u.fieldOffset + u.fieldBytes);
      DropDrop(whole, p, u.fieldOffset);
      Filled(base, tail, lp, lp + u.fieldBytes);
      Filled(base, tail, lp, tail);
      match u.coding
      case BigEndianCoding =>
        var bodyLen := ReadBig(lp, u.fieldBytes);
        f := Value(bodyLen, u.fieldBytes);
      case LittleEndianCoding =>
        var bodyLen := ReadLittle(lp, u.fieldBytes);
        LittleEndianShort(whole[lp..lp + u.fieldBytes]);
        f := Value(bodyLen, u.fieldBytes);
      case VarintCoding =>
        var d := VarintDecode(base[lp..tail]);
        f := Low32(d);
      case Asn1Coding =>
        var d := Asn1Decode(base[lp..tail]);
        f := Low32(d);
      case UnknownCoding =>
        f := Malformed;
    }

    /** The loop of hio_unpack_by_length_field. */
    method ScanLength(ghost whole: Bytes) returns (p: nat, packageLen: nat, stop: Stop)
      requires u.LengthField? && ValidSetting(u) && tail <= base.Length && base[..tail] == whole
      modifies this`log, this`smallCnt
      ensures p <= tail && base[..tail] == whole && Progress(u, whole, p, old(log), log)
      ensures var f := FrontOf(u, whole[p..]);
        && !f.Packet? && (stop.Waits? <==> f.Partial?) && (stop.Refuses? <==> f.Bad?) && (stop.Repeats? <==> f.Empty?)
        && (f.Partial? ==> if Unfinished(u, whole[p..]) then packageLen <= base.Length
                           else packageLen == f.need || (packageLen <= base.Length && f.need <= base.Length))
      ensures smallCnt > 0 ==> base.Length > READ_BUFSIZE_HIGH_WATER || smallCnt == old(smallCnt)
    {
      hide Progress, Split, Field;
      Started(u, whole, log);
      p, packageLen, stop := 0, u.bodyOffset, Waits;
      var remain := tail;
      while remain >= u.bodyOffset
        invariant 0 <= remain && p + remain == tail == |whole| && base[..tail] == whole && stop.Waits?
        invariant Progress(u, whole, p, old(log), log)
        invariant packageLen == u.bodyOffset || (packageLen <= base.Length && u.bodyOffset <= base.Length)
        invariant smallCnt > 0 ==> base.Length > READ_BUFSIZE_HIGH_WATER || smallCnt == old(smallCnt)
        decreases remain
      {
        var f := ReadField(p, whole);
        if f.NeedMore? { return; }
        if f.Malformed? {
          stop := Refuses;
          return;
        }
        packageLen := PackageLen(u, f);
        // the next turn would be this one again, for ever
        if packageLen == 0 {
          stop := Repeats;
          return;
        }
        if remain >= packageLen {
          NextPacket(u, whole, p, old(log), log);
          var packet := base[p..p + packageLen];
          forall i | 0 <= i < |packet| ensures packet[i] == whole[p..p + packageLen][i] {
            assert base[..tail][p + i] == base[p + i];
          }
          assert packet == whole[p..p + packageLen];
          ReadCb(packet);
          p, remain := p + packageLen, remain - packageLen;
        } else {
          return;
        }
      }
    }

    /** hio_unpack_by_length_field */
    method UnpackLength()
      requires u.LengthField? && ValidSetting(u) && head == 0 && tail <= base.Length && Sized(u, max, base.Length)
      requires !closed && !stalled && (smallCnt > 0 ==> base.Length > READ_BUFSIZE_HIGH_WATER)
      modifies this`log, this`smallCnt, this`tail, this`base, this`closed, this`stalled, base
      ensures var r := Split(u, old(base[..tail]));
        && log == old(log) + r.packets
        && (stalled <==> r.front.Empty?)
        && (closed <==> r.front.Bad? || (r.front.Partial? && r.rest != [] && !Unfinished(u, r.rest) && r.front.need > max))
        && (!closed && !stalled ==> tail <= base.Length && base[..tail] == r.rest && Sized(u, max, base.Length))
        && (!closed && !stalled && tail == base.Length ==> Unfinished(u, r.rest))
      ensures smallCnt > 0 ==> base.Length > READ_BUFSIZE_HIGH_WATER
      ensures base == old(base) || fresh(base)
    {
      hide Split, FrontOf, Field;
      ghost var whole := base[..tail];
      var p, packageLen, stop := ScanLength(whole);
      Finished(u, whole, p, old(log), log);
      PartialSize(u, whole[p..]);
      if stop.Refuses? {
        closed := true;
        return;
      }
      if stop.Repeats? {
        stalled := true;
        return;
      }
      var remain := tail - p;
      MoveToFront(p, remain);
      tail := remain;
      if remain != 0 {
        if packageLen > base.Length {
          if packageLen > max {
            closed := true;
            return;
          }
          AllocReadbuf(Limit(packageLen, base.Length * 2, max));
        }
      }
    }

    /** hio_memmove_readbuf */
    method MemmoveReadbuf()
      requires head <= tail <= base.Length
      modifies this`head, this`tail, base
      ensures head == 0 && tail == old(tail - head) && tail <= base.Length && Kept() == old(Kept())
    {
      if tail == head {
        head, tail := 0, 0;
        return;
      }
      var size := tail - head;
      MoveToFront(head, size);
      head, tail := 0, size;
    }

    /** The read-buffer autosizing at the end of hio_handle_read, in any mode of reading. */
    method Autosize()
      requires head <= tail <= base.Length && 1 <= base.Length <= max && !closed
      modifies this`base, this`smallCnt, this`closed, this`head, this`tail, base
      ensures head <= tail <= base.Length && Kept() == old(Kept()) && (old(head) == 0 ==> head == 0)
      ensures closed <==> old(head) == 0 && old(tail) == old(base.Length) && 2 * old(base.Length) > max
      ensures closed ==> base == old(base)
      ensures !closed ==> tail < base.Length && 1 <= base.Length <= max
      ensures base == old(base) || fresh(base)
      ensures !closed ==> base.Length == Resized(old(base.Length), old(head), old(tail), old(smallCnt))
      ensures base.Length == old(base.Length) || smallCnt == 0
      ensures smallCnt == old(smallCnt) || smallCnt == 0
      ensures old(tail) < old(base.Length) && old(smallCnt) == 0 ==> base == old(base)
    {
      if head == tail { head, tail := 0, 0; }
      if tail == base.Length {
        if head == 0 {
          AllocReadbuf(base.Length * 2);
        } else {
          MemmoveReadbuf();
        }
      } else {
        var small := base.Length / 2;
        if tail < small && smallCnt >= 3 {
          AllocReadbuf(small);
        }
      }
    }

    /** hio_set_unpack, with the limit 0 standing for the default. */
    constructor (u: Setting, limit: nat)
      requires ValidSetting(u)
      requires u.FixedLength? ==> u.length <= if limit == 0 then DEFAULT_PACKAGE_MAX_LENGTH else limit
      ensures Valid() && fresh(base) && log == [] && received == [] && History()
      ensures this.u == u && max == (if limit == 0 then 2097152 else limit)
      ensures base.Length == if u.FixedLength? then u.length else if max < 8192 then max else 8192
    {
      var max := if limit == 0 then DEFAULT_PACKAGE_MAX_LENGTH else limit;
      this.u, this.max := u, max;
      var len := if u.FixedLength? then u.length else Min(HLOOP_READ_BUFSIZE, max);
      base := new Byte[len](_ => 0);
      head, tail, smallCnt, log, closed, stalled, received := 0, 0, 0, [], false, false, [];
      new;
      assert base[..tail] == [];
    }

    /** What has been delivered and what is kept are the one-shot split of all bytes received. */
    ghost predicate History()
      requires ValidSetting(u) && tail <= base.Length
      reads this, base
    {
      log == Split(u, received).packets && base[..tail] == Split(u, received).rest
    }

    /** nio_read of a stream into the free space, hio_unpack, and the autosizing of hio_handle_read. */
    method HandleRead(data: Bytes)
      requires Valid() && History() && 1 <= |data| <= base.Length - tail
      modifies this`base, this`head, this`tail, this`smallCnt, this`log, this`closed, this`stalled, this`received, base
      ensures received == old(received) + data && log == Split(u, received).packets
      ensures !closed && !stalled ==> Valid() && History()
      ensures stalled <==> Split(u, received).front.Empty?
      ensures !CanStall(u) ==> !stalled
      ensures closed <==> Closes(u, max, base.Length, Split(u, received))
      ensures base == old(base) || fresh(base)
    {
      hide Split, FrontOf, Unfinished;
      ghost var kept := base[..tail];
      SplitResumes(u, received, data);
      received := received + data;
      if !CanStall(u) { SplitNeverStalls(u, received); }
      var buf := tail;
      Receive(data);
      match u {
        case FixedLength(_) => UnpackFixed();
        case Delimiter(_) =>
          KeptPartial(u, kept);
          assert base[..buf] == kept;
          UnpackDelimiter(buf);
        case LengthField(_, _, _, _, _) => UnpackLength();
      }
      RestFront(u, received);
      ghost var r := Split(u, received);
      if closed || stalled { return; }
      assert base[..tail] == r.rest && Kept() == r.rest;
      Autosize();
      assert base[..tail] == Kept();
    }

    /** The kernel writes the bytes read at the tail. */
    method Receive(data: Bytes)
      requires tail + |data| <= base.Length
      modifies this`tail, base
      ensures tail == old(tail) + |data| && base[..tail] == old(base[..tail]) + data
    {
      for i := 0 to |data|
        modifies base
        invariant forall k :: 0 <= k < tail ==> base[k] == old(base[k])
        invariant forall k :: 0 <= k < i ==> base[tail + k] == data[k]
      {
        base[tail + i] := data[i];
      }
      tail := tail + |data|;
    }
  }

  /**
    When the connection is closed, with a buffer of len bytes: on a malformed length, on a packet
    over the limit, and on a length code that fills a buffer which cannot be doubled.
    */
  ghost predicate Closes(u: Setting, max: nat, len: nat, r: Splitting)
    requires ValidSetting(u)
  {
    r.front.Bad? ||
    match u
    case FixedLength(_) => false
    case Delimiter(_) => |r.rest| >= max
    case LengthField(_, _, _, _, _) =>
      r.front.Partial? && r.rest != [] &&
      if Unfinished(u, r.rest) then |r.rest| == len && 2 * len > max else r.front.need > max
  }

  lemma KeptPartial(u: Setting, kept: Bytes)
    requires u.Delimiter? && ValidSetting(u) && !FrontOf(u, kept).Packet?
    ensures IndexOf(kept, u.delimiter) < 0
  {
  }

  /** The rest of a split has at its front what the split says. */
  lemma {:induction false} RestFront(u: Setting, s: Bytes)
    requires ValidSetting(u)
    ensures FrontOf(u, Split(u, s).rest) == Split(u, s).front
    decreases |s|
  {
    hide FrontOf, Split;
    SplitStep(u, s);
    var f := FrontOf(u, s);
    if f.Packet? { RestFront(u, s[f.n..]); }
  }

  /** The buffer sizes the modes work with. */
  ghost predicate Sized(u: Setting, max: nat, len: nat) {
    match u
    case FixedLength(n) => len == n <= max
    case Delimiter(d) => 1 <= len <= max
    case LengthField(_, _, _, _, _) => 1 <= len <= max
  }

  /** The packets before p have been delivered. */
  ghost predicate Progress(u: Setting, whole: Bytes, p: nat, log0: seq<Bytes>, log: seq<Bytes>)
    requires ValidSetting(u)
  {
    && p <= |whole|
    && log + Split(u, whole[p..]).packets == log0 + Split(u, whole).packets
    && Split(u, whole[p..]).rest == Split(u, whole).rest
    && Split(u, whole[p..]).front == Split(u, whole).front
  }

  lemma Started(u: Setting, whole: Bytes, log: seq<Bytes>)
    requires ValidSetting(u)
    ensures Progress(u, whole, 0, log, log)
  {
    assert whole[0..] == whole;
  }

  lemma NextPacket(u: Setting, whole: Bytes, p: nat, log0: seq<Bytes>, log: seq<Bytes>)
    requires ValidSetting(u) && Progress(u, whole, p, log0, log) && FrontOf(u, whole[p..]).Packet?
    ensures var n := FrontOf(u, whole[p..]).n;
      && 1 <= n && p + n <= |whole|
      && Progress(u, whole, p + n, log0, log + [whole[p..p + n]])
  {
    hide FrontOf, Split;
    SplitStep(u, whole[p..]);
    var n := FrontOf(u, whole[p..]).n;
    assert whole[p..][n..] == whole[p + n..];
    assert whole[p..][..n] == whole[p..p + n];
    Associative(log, [whole[p..p + n]], Split(u, whole[p + n..]).packets);
  }

  lemma Finished(u: Setting, whole: Bytes, p: nat, log0: seq<Bytes>, log: seq<Bytes>)
    requires ValidSetting(u) && Progress(u, whole, p, log0, log) && !FrontOf(u, whole[p..]).Packet?
    ensures log == log0 + Split(u, whole).packets
    ensures Split(u, whole).rest == whole[p..] && Split(u, whole).front == FrontOf(u, whole[p..])
  {
    hide FrontOf, Split;
    SplitStep(u, whole[p..]);
    assert log + [] == log;
  }

  /** A match that starts more than |d| - 1 bytes before the new bytes would lie within the old ones. */
  lemma NoneBefore(old_: Bytes, whole: Bytes, d: Bytes)
    requires |old_| <= |whole| && old_ == whole[..|old_|] && IndexOf(old_, d) < 0
    ensures forall q :: 0 <= q && q + |d| <= |old_| ==> !MatchAt(whole, d, q)
  {
    IndexOfFirst(old_, d);
    forall q | 0 <= q && q + |d| <= |old_| ensures !MatchAt(whole, d, q) {
      assert whole[q..q + |d|] == old_[q..q + |d|];
      assert !MatchAt(old_, d, q);
    }
  }

  lemma MatchShift(whole: Bytes, d: Bytes, sp: nat, q: nat)
    requires sp <= |whole|
    ensures MatchAt(whole[sp..], d, q) <==> MatchAt(whole, d, sp + q)
  {
    if sp + q + |d| <= |whole| { assert whole[sp..][q..q + |d|] == whole[sp + q..sp + q + |d|]; }
  }

  lemma FirstMatch(u: Setting, whole: Bytes, sp: nat, p: nat)
    requires u.Delimiter? && ValidSetting(u) && sp <= p <= |whole|
    requires MatchAt(whole, u.delimiter, p) && forall q :: sp <= q < p ==> !MatchAt(whole, u.delimiter, q)
    ensures FrontOf(u, whole[sp..]) == Packet(p - sp + |u.delimiter|) && p + |u.delimiter| <= |whole|
  {
    var d := u.delimiter;
    MatchShift(whole, d, sp, p - sp);
    forall q | 0 <= q < p - sp ensures !MatchAt(whole[sp..], d, q) { MatchShift(whole, d, sp, q); }
    IndexOfUnique(whole[sp..], d, p - sp);
  }

  lemma NoMatch(u: Setting, whole: Bytes, sp: nat, p: nat)
    requires u.Delimiter? && ValidSetting(u) && sp <= p <= |whole|
    requires p + |u.delimiter| > |whole| && forall q :: sp <= q < p ==> !MatchAt(whole, u.delimiter, q)
    ensures FrontOf(u, whole[sp..]).Partial?
  {
    var d := u.delimiter;
    forall q | 0 <= q ensures !MatchAt(whole[sp..], d, q) {
      MatchShift(whole, d, sp, q);
      assert sp + q < p || !MatchAt(whole, d, sp + q);
    }
    IndexOfAbsent(whole[sp..], d);
  }

  lemma Wrap32(a: int, b: int)
    ensures (a % TWO32 * 256 + b) % TWO32 == (a * 256 + b) % TWO32
  {
  }

  lemma {:induction false} LittleEndianAppend(s: Bytes, b: Byte)
    ensures LittleEndian(s + [b]) == LittleEndian(s) + b * Pow256(|s|)
  {
    if s == [] {
      assert [b][1..] == [];
    } else {
      LittleEndianAppend(s[1..], b);
      assert (s + [b])[1..] == s[1..] + [b];
      assert b * (256 * Pow256(|s| - 1)) == 256 * (b * Pow256(|s| - 1));
    }
  }

  lemma LittleEndianShort(s: Bytes)
    requires |s| <= 4
    ensures LittleEndian(s) < TWO32
  {
    LittleEndianBound(s);
    assert Pow256(4) == TWO32 && Pow256(3) == 16777216 && Pow256(2) == 65536 && Pow256(1) == 256;
  }

  /** The code of the length is not complete. */
  ghost predicate Unfinished(u: Setting, s: Bytes)
    requires u.LengthField? && ValidSetting(u)
  {
    |s| >= u.bodyOffset && Field(u, s).NeedMore?
  }

  /** An unfinished length code asks for one byte more, and a partial packet for more than there is. */
  lemma PartialSize(u: Setting, s: Bytes)
    requires u.LengthField? && ValidSetting(u)
    ensures var f := FrontOf(u, s);
      && (Unfinished(u, s) ==> f == Partial(|s| + 1))
      && (f.Partial? ==> |s| < f.need)
  {
  }

  /** A length code is finished, or found malformed, within ten bytes (varint) or 128 bytes (ASN.1). */
  lemma CodeFits(u: Setting, s: Bytes)
    requires u.LengthField? && ValidSetting(u) && Unfinished(u, s)
    ensures u.coding.VarintCoding? || u.coding.Asn1Coding?
    ensures |s| < u.fieldOffset + if u.coding.VarintCoding? then 10 else 128
  {
  }

  lemma SplitNeverStalls(u: Setting, s: Bytes)
    requires ValidSetting(u) && !CanStall(u)
    ensures !Split(u, s).front.Empty?
  {
    RestFront(u, s);
    NeverStalls(u, Split(u, s).rest);
  }
}
