/** The unpackers of event/unpack.c from the side of the sender: what is framed is delivered. */
module UnpackFrames {

  import opened Basics
  import opened Codec
  import opened UnpackSpec

  // ---- length fields

  /** The values a length field can carry. */
  predicate Codable(u: Setting, v: nat)
    requires u.LengthField?
  {
    match u.coding
    case BigEndianCoding => v < Pow256(u.fieldBytes)
    case LittleEndianCoding => v < Pow256(u.fieldBytes)
    case VarintCoding => v < TWO63
    case Asn1Coding => v < TWO32
    case UnknownCoding => false
  }

  /** What a sender writes in the length field. */
  function Coded(u: Setting, v: nat): Bytes
    requires u.LengthField? && Codable(u, v)
  {
    match u.coding
    case BigEndianCoding => BigEndian(v, u.fieldBytes)
    case LittleEndianCoding => LittleCode(v, u.fieldBytes)
    case VarintCoding => Varint(v)
    case _ => Asn1(v)
  }

  lemma FieldCoded(u: Setting, s: Bytes, v: nat)
    requires u.LengthField? && ValidSetting(u) && Codable(u, v) && |s| >= u.bodyOffset
    requires Coded(u, v) <= s[u.fieldOffset..]
    ensures Field(u, s) == Value(v % TWO32, |Coded(u, v)|)
    ensures u.coding.BigEndianCoding? || u.coding.LittleEndianCoding? ==> |Coded(u, v)| == u.fieldBytes
  {
    var code, t := Coded(u, v), s[u.fieldOffset..];
    var rest := t[|code|..];
    assert t == code + rest;
    hide VarintDecoded, Asn1Decoded, BigEndian, LittleCode, Varint, Asn1, BytesValue, LittleEndian, Pow256;
    match u.coding {
      case BigEndianCoding =>
        BigEndianValue(v, u.fieldBytes);
        SliceDrop(s, u.fieldOffset, 0, u.fieldBytes);
        assert t[..u.fieldBytes] == code;
      case LittleEndianCoding =>
        LittleCodeValue(v, u.fieldBytes);
        SliceDrop(s, u.fieldOffset, 0, u.fieldBytes);
        assert t[..u.fieldBytes] == code;
      case VarintCoding => VarintRoundTrip(v, rest);
      case Asn1Coding => Asn1RoundTrip(v, rest);
      case UnknownCoding =>
    }
  }

  lemma NoWrap(v: nat, k: int)
    requires 0 <= k + v < TWO32
    ensures (k + v % TWO32) % TWO32 == k + v
  {
    assert v == TWO32 * (v / TWO32) + v % TWO32;
  }

  /**
    A stream whose length field carries v begins with a packet of head, v and adjustment, as long as
    that is at least 1 and below 2^32: it is delivered as soon as that many bytes are there.
    */
  lemma LengthLaw(u: Setting, s: Bytes, v: nat, n: int)
    requires u.LengthField? && ValidSetting(u) && Codable(u, v) && |s| >= u.bodyOffset
    requires Coded(u, v) <= s[u.fieldOffset..]
    requires n == u.bodyOffset + |Coded(u, v)| - u.fieldBytes + v + u.adjustment && 1 <= n < TWO32
    ensures FrontOf(u, s) == if |s| >= n then Packet(n) else Partial(n)
  {
    FieldCoded(u, s, v);
    hide Field, Coded;
    NoWrap(v, n - v);
  }

  /** A frame: what stands before the length field, the field, the rest of the head, and the body. */
  ghost predicate Framed(u: Setting, f: Bytes, pre: Bytes, v: nat, mid: Bytes, body: Bytes)
    requires u.LengthField? && ValidSetting(u)
  {
    && Codable(u, v) && f == pre + Coded(u, v) + mid + body
    && |pre| == u.fieldOffset && |mid| == u.bodyOffset - u.fieldOffset - u.fieldBytes && |body| == v + u.adjustment
  }

  /**
    A frame is delivered whole, whatever follows, once bodyOffset bytes are there; a frame that is
    shorter than that, which only a variable-length code can bring about, waits for them.
    */
  lemma FrameFront(u: Setting, f: Bytes, pre: Bytes, v: nat, mid: Bytes, body: Bytes, rest: Bytes)
    requires u.LengthField? && ValidSetting(u) && Framed(u, f, pre, v, mid, body) && 1 <= |f| < TWO32
    ensures FrontOf(u, f + rest) == if |f + rest| >= u.bodyOffset then Packet(|f|) else Partial(u.bodyOffset)
  {
    var s, code := f + rest, Coded(u, v);
    hide FrontOf, Coded, Codable;
    assert s == pre + (code + (mid + body + rest));
    assert s[u.fieldOffset..] == code + (mid + body + rest);
    if |s| >= u.bodyOffset {
      LengthLaw(u, s, v, |f|);
    } else {
      Short(u, s);
    }
  }

  lemma Short(u: Setting, s: Bytes)
    requires u.LengthField? && ValidSetting(u) && |s| < u.bodyOffset
    ensures FrontOf(u, s) == Partial(u.bodyOffset)
  {
  }

  // ---- all modes

  /** d occurs in f at its end, and nowhere before. */
  ghost predicate EndsWithFirst(f: Bytes, d: Bytes) {
    |d| <= |f| && f[|f| - |d|..] == d && forall q :: 0 <= q < |f| - |d| ==> !MatchAt(f, d, q)
  }

  /** What a sender of the mode sends as one packet. */
  ghost predicate IsFrame(u: Setting, f: Bytes)
    requires ValidSetting(u)
  {
    match u
    case FixedLength(n) => |f| == n
    case Delimiter(d) => EndsWithFirst(f, d)
    case LengthField(body, _, _, _, _) =>
      1 <= |f| < TWO32 && body <= |f| && exists pre, v, mid, body' :: Framed(u, f, pre, v, mid, body')
  }

  lemma FrameDelivered(u: Setting, f: Bytes, rest: Bytes)
    requires ValidSetting(u) && IsFrame(u, f)
    ensures FrontOf(u, f + rest) == Packet(|f|)
  {
    match u
    case FixedLength(_) =>
    case Delimiter(d) =>
      var s, p := f + rest, |f| - |d|;
      forall q | 0 <= q <= p ensures MatchAt(s, d, q) <==> q == p {
        assert s[q..q + |d|] == f[q..q + |d|];
        assert MatchAt(s, d, q) <==> MatchAt(f, d, q);
        if q == p { assert f[p..p + |d|] == f[p..]; }
      }
      IndexOfUnique(s, d, p);
    case LengthField(_, _, _, _, _) =>
      var pre, v, mid, body :| Framed(u, f, pre, v, mid, body);
      FrameFront(u, f, pre, v, mid, body, rest);
  }

  /** A stream of frames is split back into exactly these frames. */
  lemma {:induction false} FramesSplit(u: Setting, frames: seq<Bytes>, rest: Bytes)
    requires ValidSetting(u) && (forall f :: f in frames ==> IsFrame(u, f)) && !FrontOf(u, rest).Packet?
    ensures Split(u, Concat(frames) + rest) == Splitting(frames, rest, FrontOf(u, rest))
  {
    var s := Concat(frames) + rest;
    if frames == [] {
      assert s == rest;
      hide FrontOf;
    } else {
      var f, more := frames[0], frames[1..];
      assert f in frames && (forall g :: g in more ==> g in frames);
      hide FrontOf, Split, IsFrame;
      FramesSplit(u, more, rest);
      Associative(f, Concat(more), rest);
      assert s == f + (Concat(more) + rest);
      FrameDelivered(u, f, Concat(more) + rest);
      SplitStep(u, s);
      assert s[..|f|] == f && s[|f|..] == Concat(more) + rest;
      assert [f] + more == frames;
    }
  }

  /** However the stream of frames is cut into reads, the frames come out. */
  lemma FramesArrive(u: Setting, frames: seq<Bytes>, cuts: seq<Bytes>)
    requires ValidSetting(u) && (forall f :: f in frames ==> IsFrame(u, f)) && Concat(cuts) == Concat(frames)
    ensures Fed(u, cuts).packets == frames && Fed(u, cuts).rest == []
  {
    CutsDoNotMatter(u, cuts);
    NothingYet(u);
    FramesSplit(u, frames, []);
    assert Concat(frames) + [] == Concat(frames);
  }

  lemma NothingYet(u: Setting)
    requires ValidSetting(u)
    ensures !FrontOf(u, []).Packet?
  {
    if FrontOf(u, []).Packet? {
      PacketSize(u, []);
    }
  }

  /** In the other two modes every packet of any stream is such a frame. */
  lemma {:induction false} PacketsFramed(u: Setting, s: Bytes)
    requires ValidSetting(u) && !u.LengthField?
    ensures forall p :: p in Split(u, s).packets ==> IsFrame(u, p)
    decreases |s|
  {
    hide Split, IsFrame;
    SplitStep(u, s);
    if FrontOf(u, s).Packet? {
      var n := FrontOf(u, s).n;
      PacketSize(u, s);
      PacketFramed(u, s, n);
      hide FrontOf;
      PacketsFramed(u, s[n..]);
    }
  }

  lemma PacketFramed(u: Setting, s: Bytes, n: nat)
    requires ValidSetting(u) && !u.LengthField? && FrontOf(u, s) == Packet(n) && n <= |s|
    ensures IsFrame(u, s[..n])
  {
    if u.Delimiter? {
      var d, f := u.delimiter, s[..n];
      IndexOfFirst(s, d);
      assert f[n - |d|..] == s[n - |d|..n - |d| + |d|];
      forall q | 0 <= q < n - |d| ensures !MatchAt(f, d, q) {
        assert !MatchAt(s, d, q);
        assert f[q..q + |d|] == s[q..q + |d|];
      }
    }
  }
}
