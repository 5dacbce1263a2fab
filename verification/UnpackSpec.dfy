/** What event/unpack.c promises: the packets of a byte stream, whatever the reads it arrives in. */
module UnpackSpec {

  import opened Basics
  import opened Codec

  datatype Coding = BigEndianCoding | LittleEndianCoding | VarintCoding | Asn1Coding | UnknownCoding

  /** unpack_setting_t, by mode. */
  datatype Setting =
    | FixedLength(length: nat)
    | Delimiter(delimiter: Bytes)
    | LengthField(bodyOffset: nat, fieldOffset: nat, fieldBytes: nat, adjustment: int, coding: Coding)

  /** What hio_set_unpack asserts, and what the unpackers rely on. */
  ghost predicate ValidSetting(u: Setting) {
    match u
    case FixedLength(n) => n >= 1
    case Delimiter(d) => |d| >= 1
    case LengthField(body, off, size, adj, coding) =>
      && body >= off + size && (coding.VarintCoding? || coding.Asn1Coding? ==> size >= 1)
      && (coding.LittleEndianCoding? ==> size <= 4)
  }

  /** What stands at the front of the unhandled bytes. */
  datatype Front =
    | Packet(n: nat) // a whole packet of n bytes
    | Partial(need: nat) // less than a packet, which needs this many bytes as far as can be told
    | Bad // a malformed length: the connection is closed
    | Empty // a packet of no bytes: the source does not get past it

  // ---- delimiter

  predicate MatchAt(s: Bytes, d: Bytes, p: int) {
    0 <= p && p + |d| <= |s| && s[p..p + |d|] == d
  }

  /** The first place where d occurs in s, or -1. */
  function IndexOf(s: Bytes, d: Bytes): (r: int) {
    if |s| < |d| then -1
    else if s[..|d|] == d then 0
    else if s == [] then -1
    else var r := IndexOf(s[1..], d); if r < 0 then -1 else r + 1
  }

  lemma {:induction false} IndexOfFirst(s: Bytes, d: Bytes)
    ensures var r := IndexOf(s, d);
      if r >= 0 then MatchAt(s, d, r) && forall q :: 0 <= q < r ==> !MatchAt(s, d, q)
      else forall q :: !MatchAt(s, d, q)
  {
    if |s| >= |d| && s[..|d|] != d && s != [] {
      IndexOfFirst(s[1..], d);
      forall q | 1 <= q && q + |d| <= |s| ensures MatchAt(s, d, q) <==> MatchAt(s[1..], d, q - 1) {
        SliceDrop(s, 1, q - 1, q - 1 + |d|);
      }
      assert s[0..0 + |d|] == s[..|d|];
    } else if |s| >= |d| && s[..|d|] == d {
      assert s[0..0 + |d|] == s[..|d|];
    }
  }

  lemma IndexOfUnique(s: Bytes, d: Bytes, p: int)
    requires MatchAt(s, d, p) && forall q :: 0 <= q < p ==> !MatchAt(s, d, q)
    ensures IndexOf(s, d) == p
  {
    IndexOfFirst(s, d);
    var r := IndexOf(s, d);
    assert r >= 0 ==> MatchAt(s, d, r);
  }

  lemma IndexOfAbsent(s: Bytes, d: Bytes)
    requires forall q :: 0 <= q ==> !MatchAt(s, d, q)
    ensures IndexOf(s, d) < 0
  {
    IndexOfFirst(s, d);
  }

  // ---- length field

  function LittleEndian(s: Bytes): nat {
    if s == [] then 0 else s[0] + 256 * LittleEndian(s[1..])
  }

  /** The low n bytes of v, low byte first. */
  function LittleCode(v: nat, n: nat): Bytes {
    if n == 0 then [] else [v % 256] + LittleCode(v / 256, n - 1)
  }

  lemma {:induction false} LittleCodeValue(v: nat, n: nat)
    requires v < Pow256(n)
    ensures |LittleCode(v, n)| == n && LittleEndian(LittleCode(v, n)) == v
    decreases n
  {
    if n > 0 {
      LittleCodeValue(v / 256, n - 1);
      assert LittleCode(v, n)[1..] == LittleCode(v / 256, n - 1);
    }
  }

  /** The bytes of a number, low byte first. */
  lemma {:induction false} LittleBytes(v: nat, n: nat, i: nat)
    requires i < n
    ensures |LittleCode(v, n)| == n && Pow256(i) >= 1 && LittleCode(v, n)[i] == v / Pow256(i) % 256
    decreases n
  {
    if n == 1 {
      assert v / 1 == v;
    } else {
      LittleBytes(v / 256, n - 1, if i > 0 then i - 1 else 0);
      if i > 0 { DivDiv(v, 256, Pow256(i - 1)); } else { assert v / 1 == v; }
    }
  }

  /** The length field at the front of s: its value on 32 bits and the bytes it takes. */
  function Field(u: Setting, s: Bytes): Decoded
    requires u.LengthField? && ValidSetting(u) && |s| >= u.bodyOffset
  {
    var f := s[u.fieldOffset..u.fieldOffset + u.fieldBytes];
    match u.coding
    case BigEndianCoding => Value(BytesValue(f) % TWO32, u.fieldBytes)
    case LittleEndianCoding => Value(LittleEndian(f) % TWO32, u.fieldBytes)
    case VarintCoding => Low32(VarintDecoded(s[u.fieldOffset..]))
    case Asn1Coding => Low32(Asn1Decoded(s[u.fieldOffset..]))
    case UnknownCoding => Malformed
  }

  function Low32(d: Decoded): Decoded {
    if d.Value? then Value(d.v % TWO32, d.size) else d
  }

  /** head_len + body_len + length_adjustment, as an unsigned int. */
  function PackageLen(u: Setting, f: Decoded): nat
    requires u.LengthField? && f.Value?
  {
    (u.bodyOffset + f.size - u.fieldBytes + f.v + u.adjustment) % TWO32
  }

  function FrontOf(u: Setting, s: Bytes): Front
    requires ValidSetting(u)
  {
    match u
    case FixedLength(n) => if |s| >= n then Packet(n) else Partial(n)
    case Delimiter(d) =>
      var p := IndexOf(s, d);
      if p >= 0 then Packet(p + |d|) else Partial(|s| + 1)
    case LengthField(body, _, _, _, _) =>
      if |s| < body then Partial(body)
      else
        var f := Field(u, s);
        match f
        case NeedMore => Partial(|s| + 1)
        case Malformed => Bad
        case Value(_, _) =>
          var n := PackageLen(u, f);
          if n == 0 then Empty else if |s| >= n then Packet(n) else Partial(n)
  }

  // ---- the one-shot split

  datatype Splitting = Splitting(packets: seq<Bytes>, rest: Bytes, front: Front)

  /** All packets of s, and the unfinished rest with what stands at its front. */
  function Split(u: Setting, s: Bytes): (r: Splitting)
    requires ValidSetting(u)
    ensures !r.front.Packet?
    decreases |s|
  {
    var f := FrontOf(u, s);
    if !f.Packet? then Splitting([], s, f)
    else
      PacketSize(u, s);
      var r := Split(u, s[f.n..]);
      Splitting([s[..f.n]] + r.packets, r.rest, r.front)
  }

  lemma PacketSize(u: Setting, s: Bytes)
    requires ValidSetting(u) && FrontOf(u, s).Packet?
    ensures 1 <= FrontOf(u, s).n <= |s|
  {
    if u.Delimiter? { IndexOfFirst(s, u.delimiter); }
  }

  lemma SplitStep(u: Setting, s: Bytes)
    requires ValidSetting(u)
    ensures var f := FrontOf(u, s);
      if f.Packet? then
        1 <= f.n <= |s| &&
        var r := Split(u, s[f.n..]); Split(u, s) == Splitting([s[..f.n]] + r.packets, r.rest, r.front)
      else Split(u, s) == Splitting([], s, f)
  {
    if FrontOf(u, s).Packet? { PacketSize(u, s); }
  }

  /** Nothing is lost or reordered: the packets and the rest are the stream. */
  lemma {:induction false} SplitWhole(u: Setting, s: Bytes)
    requires ValidSetting(u)
    ensures Concat(Split(u, s).packets) + Split(u, s).rest == s
    decreases |s|
  {
    hide FrontOf, Split;
    SplitStep(u, s);
    var f := FrontOf(u, s);
    if f.Packet? {
      SplitWhole(u, s[f.n..]);
      var r := Split(u, s[f.n..]);
      assert ([s[..f.n]] + r.packets)[1..] == r.packets;
      Associative(s[..f.n], Concat(r.packets), r.rest);
      assert s == s[..f.n] + s[f.n..];
    }
  }

  /** More bytes do not change a packet, nor a malformed or empty one, at the front. */
  lemma FrontStable(u: Setting, s: Bytes, t: Bytes)
    requires ValidSetting(u) && !FrontOf(u, s).Partial?
    ensures FrontOf(u, s + t) == FrontOf(u, s)
  {
    match u
    case FixedLength(_) =>
    case Delimiter(d) =>
      IndexOfFirst(s, d);
      var p := IndexOf(s, d);
      forall q ensures q + |d| <= |s| ==> (MatchAt(s + t, d, q) <==> MatchAt(s, d, q)) {
        if 0 <= q && q + |d| <= |s| { assert (s + t)[q..q + |d|] == s[q..q + |d|]; }
      }
      IndexOfUnique(s + t, d, p);
    case LengthField(_, _, _, _, _) => FieldStable(u, s, t);
  }

  lemma FieldStable(u: Setting, s: Bytes, t: Bytes)
    requires u.LengthField? && ValidSetting(u) && |s| >= u.bodyOffset && !Field(u, s).NeedMore?
    ensures Field(u, s + t) == Field(u, s)
  {
    var a, b := u.fieldOffset, u.fieldOffset + u.fieldBytes;
    assert (s + t)[a..b] == s[a..b];
    assert (s + t)[a..] == s[a..] + t;
    if u.coding.VarintCoding? { VarintStable(s[a..], t); }
    if u.coding.Asn1Coding? { Asn1Stable(s[a..], t); }
  }

  lemma VarintStable(s: Bytes, t: Bytes)
    requires |s| >= 1 && !VarintDecoded(s).NeedMore?
    ensures VarintDecoded(s + t) == VarintDecoded(s)
  {
    CodeSizeStable(s, t);
    var n := CodeSize(s);
    if n <= |s| { assert (s + t)[..n] == s[..n]; }
  }

  lemma {:induction false} CodeSizeStable(s: Bytes, t: Bytes)
    ensures CodeSize(s) <= |s| ==> CodeSize(s + t) == CodeSize(s)
    ensures CodeSize(s) > |s| ==> CodeSize(s + t) > |s|
  {
    if s != [] && s[0] >= 128 {
      CodeSizeStable(s[1..], t);
      assert (s + t)[1..] == s[1..] + t;
    }
  }

  lemma Asn1Stable(s: Bytes, t: Bytes)
    requires |s| >= 1 && !Asn1Decoded(s).NeedMore?
    ensures Asn1Decoded(s + t) == Asn1Decoded(s)
  {
    if s[0] > 128 {
      var n := s[0] - 128;
      assert (s + t)[1..n + 1] == s[1..n + 1];
    }
  }

  /** Splitting what was kept together with new bytes continues the split of the bytes before. */
  lemma {:induction false} SplitResumes(u: Setting, s: Bytes, t: Bytes)
    requires ValidSetting(u)
    ensures var a, b := Split(u, s), Split(u, Split(u, s).rest + t);
      Split(u, s + t) == Splitting(a.packets + b.packets, b.rest, b.front)
    decreases |s|
  {
    hide FrontOf, Split;
    SplitStep(u, s);
    SplitStep(u, s + t);
    var f := FrontOf(u, s);
    if f.Packet? {
      FrontStable(u, s, t);
      SplitResumes(u, s[f.n..], t);
      assert (s + t)[f.n..] == s[f.n..] + t;
      assert (s + t)[..f.n] == s[..f.n];
      Associative([s[..f.n]], Split(u, s[f.n..]).packets, Split(u, Split(u, s).rest + t).packets);
    } else {
      assert Split(u, s + t).packets == [] + Split(u, s + t).packets;
    }
  }

  // ---- streams cut into reads

  /** The state after handling the reads one by one: what was delivered and what is kept. */
  function Fed(u: Setting, cuts: seq<Bytes>): Splitting
    requires ValidSetting(u)
  {
    if cuts == [] then Split(u, [])
    else
      var a := Fed(u, cuts[..|cuts| - 1]);
      var b := Split(u, a.rest + cuts[|cuts| - 1]);
      Splitting(a.packets + b.packets, b.rest, b.front)
  }

  /** However the stream is cut, the packets and the rest are those of the one-shot split. */
  lemma {:induction false} CutsDoNotMatter(u: Setting, cuts: seq<Bytes>)
    requires ValidSetting(u)
    ensures Fed(u, cuts) == Split(u, Concat(cuts))
  {
    if cuts != [] {
      var before := cuts[..|cuts| - 1];
      CutsDoNotMatter(u, before);
      ConcatLast(cuts);
      SplitResumes(u, Concat(before), cuts[|cuts| - 1]);
    }
  }
}
