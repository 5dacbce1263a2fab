/** base/hmath.h: the varint and ASN.1 length codings, and the fixed header of mqtt/mqtt_protocol.c. */
module Codec {

  import opened Basics

  const TWO32 := 0x1_0000_0000
  const TWO63 := 0x8000_0000_0000_0000
  const TWO64 := 0x1_0000_0000_0000_0000

  /** What a decoder leaves in *len: the size of the code, 0 when bytes are missing, -1 when it is malformed. */
  datatype Decoded = Value(v: int, size: nat) | NeedMore | Malformed

  // ---- varint

  /** The seven-bit groups of v, low group first, all but the last with the top bit set. */
  function Varint(v: nat): (s: seq<Byte>)
    ensures |s| >= 1
  {
    if v < 128 then [v] else [v % 128 + 128] + Varint(v / 128)
  }

  /** varint_encode */
  method VarintEncode(value0: nat) returns (buf: seq<Byte>)
    ensures buf == Varint(value0)
  {
    hide Varint;
    buf := [];
    var value := value0;
    assert [] + Varint(value) == Varint(value);
    while true
      invariant buf + Varint(value) == Varint(value0)
      decreases value
    {
      VarintStep(value);
      var ch := value % 128;
      value := value / 128;
      if value == 0 {
        buf := buf + [ch];
        break;
      }
      Associative(buf, [ch + 128], Varint(value));
      buf := buf + [ch + 128];
    }
  }

  lemma VarintStep(v: nat)
    ensures v / 128 == 0 ==> Varint(v) == [v % 128]
    ensures v / 128 != 0 ==> v / 128 < v && Varint(v) == [v % 128 + 128] + Varint(v / 128)
  {
  }

  /** The number a code of n groups stands for. */
  function GroupsValue(s: seq<Byte>): nat {
    if s == [] then 0 else s[0] % 128 + 128 * GroupsValue(s[1..])
  }

  /** The size of the code at the front of s: up to the first byte below 128. */
  function CodeSize(s: seq<Byte>): nat {
    if s == [] then 1 else if s[0] < 128 then 1 else 1 + CodeSize(s[1..])
  }

  /** varint_decode on |s| >= 1 bytes: at most ten groups, the sum taken on 64 bits. */
  function VarintDecoded(s: seq<Byte>): Decoded
    requires |s| >= 1
  {
    var n := CodeSize(s);
    if n > |s| && |s| < 10 then NeedMore
    else if n > 10 then Malformed
    else Value(GroupsValue(s[..n]) % TWO64, n)
  }

  function Pow128(n: nat): nat { if n == 0 then 1 else 128 * Pow128(n - 1) }

  /** varint_decode */
  method VarintDecode(buf: seq<Byte>) returns (r: Decoded)
    requires |buf| >= 1
    ensures r == VarintDecoded(buf)
  {
    var ret, bytes := 0, 0;
    assert buf[0..] == buf;
    while bytes < 10
      invariant 0 <= bytes <= 10 && bytes <= |buf| && bytes + CodeSize(buf[bytes..]) == CodeSize(buf)
      invariant ret == GroupsValue(buf[..bytes]) % TWO64
    {
      if bytes == |buf| { return NeedMore; }
      assert buf[bytes..][1..] == buf[bytes + 1..];
      AddGroup(buf, bytes);
      ret := (ret + (buf[bytes] % 128) * Pow128(bytes)) % TWO64;
      bytes := bytes + 1;
      if buf[bytes - 1] < 128 { return Value(ret, bytes); }
    }
    return Malformed;
  }

  lemma AddGroup(buf: seq<Byte>, n: nat)
    requires n < |buf|
    ensures GroupsValue(buf[..n + 1]) % TWO64 == (GroupsValue(buf[..n]) % TWO64 + (buf[n] % 128) * Pow128(n)) % TWO64
  {
    assert buf[..n + 1] == buf[..n] + [buf[n]];
    GroupsAppend(buf[..n], buf[n]);
    WrapAdd(GroupsValue(buf[..n]), (buf[n] % 128) * Pow128(n));
  }

  lemma WrapAdd(a: int, b: int)
    ensures (a % TWO64 + b) % TWO64 == (a + b) % TWO64
  {
  }

  lemma {:induction false} GroupsAppend(s: seq<Byte>, b: Byte)
    ensures GroupsValue(s + [b]) == GroupsValue(s) + (b % 128) * Pow128(|s|)
  {
    if s == [] {
      assert [b][1..] == [];
    } else {
      GroupsAppend(s[1..], b);
      assert (s + [b])[1..] == s[1..] + [b];
      Regroup(GroupsValue(s[1..]), b % 128, Pow128(|s| - 1));
    }
  }

  lemma Regroup(a: int, b: int, c: int)
    ensures 128 * (a + b * c) == 128 * a + b * (128 * c)
  {
    assert b * (128 * c) == 128 * (b * c);
  }

  // ---- the round trip

  lemma {:induction false} VarintEnds(v: nat, rest: seq<Byte>)
    ensures CodeSize(Varint(v) + rest) == |Varint(v)|
  {
    if v >= 128 {
      VarintEnds(v / 128, rest);
      assert (Varint(v) + rest)[1..] == Varint(v / 128) + rest;
    }
  }

  lemma {:induction false} VarintValue(v: nat)
    ensures GroupsValue(Varint(v)) == v
  {
    if v < 128 {
      assert Varint(v)[1..] == [];
    } else {
      VarintValue(v / 128);
      assert Varint(v)[1..] == Varint(v / 128);
      assert (v % 128 + 128) % 128 == v % 128;
    }
  }

  lemma {:induction false} VarintSize(v: nat, n: nat)
    requires n >= 1 && v < Pow128(n)
    ensures |Varint(v)| <= n
  {
    if v >= 128 { VarintSize(v / 128, n - 1); }
  }

  lemma {:induction false} VarintPrefix(v: nat, k: nat)
    requires k < |Varint(v)|
    ensures CodeSize(Varint(v)[..k]) == k + 1
  {
    if k > 0 {
      VarintPrefix(v / 128, k - 1);
      assert Varint(v)[..k][1..] == Varint(v / 128)[..k - 1];
    }
  }

  /** varint_decode undoes varint_encode, whatever follows, and asks for more on every strict prefix. */
  lemma VarintRoundTrip(v: nat, rest: seq<Byte>)
    requires v < TWO63
    ensures VarintDecoded(Varint(v) + rest) == Value(v, |Varint(v)|) && |Varint(v)| <= 9
    ensures forall k :: 1 <= k < |Varint(v)| ==> VarintDecoded(Varint(v)[..k]) == NeedMore
  {
    assert Pow128(9) == TWO63;
    VarintSize(v, 9);
    VarintEnds(v, rest);
    VarintValue(v);
    assert (Varint(v) + rest)[..|Varint(v)|] == Varint(v);
    forall k | 1 <= k < |Varint(v)| ensures VarintDecoded(Varint(v)[..k]) == NeedMore {
      VarintPrefix(v, k);
    }
  }

  // ---- ASN.1 length

  /** The last n bytes of v, high byte first. */
  function BigEndian(v: nat, n: nat): seq<Byte> {
    if n == 0 then [] else BigEndian(v / 256, n - 1) + [v % 256]
  }

  /** asn1_encode; the bound of the four-byte form is the source's 16777126, not 2^24. */
  function Asn1(v: nat): seq<Byte> {
    if v < 128 then [v]
    else if v < 256 then [0x81, v]
    else if v < 65536 then [0x82] + BigEndian(v, 2)
    else if v < 16777126 then [0x83] + BigEndian(v, 3)
    else [0x84] + BigEndian(v, 4)
  }

  function BytesValue(s: seq<Byte>): nat {
    if s == [] then 0 else 256 * BytesValue(s[..|s| - 1]) + s[|s| - 1]
  }

  /** asn1_decode on |s| >= 1 bytes. */
  function Asn1Decoded(s: seq<Byte>): Decoded
    requires |s| >= 1
  {
    if s[0] < 128 then Value(s[0], 1)
    else if s[0] == 128 then Malformed
    else
      var n := s[0] - 128;
      if |s| < n + 1 then NeedMore else Value(BytesValue(s[1..n + 1]) % TWO64, n + 1)
  }

  /** asn1_decode */
  method Asn1Decode(buf: seq<Byte>) returns (r: Decoded)
    requires |buf| >= 1
    ensures r == Asn1Decoded(buf)
  {
    var tag := buf[0];
    if tag < 128 { return Value(tag, 1); }
    if tag == 0x80 { return Malformed; }
    var bytes, lenBytes: int, ret := 1, tag - 128, 0;
    while lenBytes > 0
      invariant 0 <= lenBytes <= tag - 128 && bytes == 1 + (tag - 128 - lenBytes) && bytes <= |buf|
      invariant ret == BytesValue(buf[1..bytes]) % TWO64
      decreases lenBytes
    {
      if bytes == |buf| { return NeedMore; }
      assert buf[1..bytes + 1][..bytes - 1] == buf[1..bytes];
      WrapMulAdd(BytesValue(buf[1..bytes]), buf[bytes]);
      ret := (ret * 256 + buf[bytes]) % TWO64;
      bytes, lenBytes := bytes + 1, lenBytes - 1;
    }
    return Value(ret, bytes);
  }

  lemma WrapMulAdd(a: int, b: int)
    ensures (a % TWO64 * 256 + b) % TWO64 == (a * 256 + b) % TWO64
  {
  }

  lemma {:induction false} BigEndianValue(v: nat, n: nat)
    requires v < Pow256(n)
    ensures |BigEndian(v, n)| == n && BytesValue(BigEndian(v, n)) == v
  {
    if n > 0 {
      BigEndianValue(v / 256, n - 1);
      var s := BigEndian(v, n);
      assert s[..|s| - 1] == BigEndian(v / 256, n - 1);
    }
  }

  function Pow256(n: nat): nat { if n == 0 then 1 else 256 * Pow256(n - 1) }

  /** asn1_decode undoes asn1_encode below 2^32, whatever follows, and asks for more on every strict prefix. */
  lemma Asn1RoundTrip(v: nat, rest: seq<Byte>)
    requires v < TWO32
    ensures Asn1Decoded(Asn1(v) + rest) == Value(v, |Asn1(v)|)
    ensures forall k :: 1 <= k < |Asn1(v)| ==> Asn1Decoded(Asn1(v)[..k]) == NeedMore
  {
    var n := if v < 65536 then 2 else if v < 16777126 then 3 else 4;
    assert Pow256(2) == 65536 && Pow256(3) == 16777216 && Pow256(4) == TWO32;
    if v >= 256 {
      BigEndianValue(v, n);
      assert (Asn1(v) + rest)[1..n + 1] == BigEndian(v, n);
    } else if v >= 128 {
      assert (Asn1(v) + rest)[1..2] == [v];
      assert [v][..0] == [] && BytesValue([v]) == v;
    }
  }

  // ---- the bytes on the wire

  function Div(a: nat, b: nat): nat
    requires b >= 1
  {
    a / b
  }

  lemma DivIs(a: nat, b: nat) returns (r: nat)
    requires b >= 1
    ensures r < b && a == b * Div(a, b) + r
  {
    r := a % b;
  }

  lemma DivDiv(v: nat, b: nat, c: nat)
    requires b >= 1 && c >= 1
    ensures b * c >= 1 && Div(Div(v, b), c) == Div(v, b * c)
  {
    hide Div;
    var q := Div(v, b);
    var q2 := Div(q, c);
    var r := DivIs(v, b);
    var r2 := DivIs(q, c);
    Products(b, c, q2, r2);
    Quotient(v, b * c, q2, b * r2 + r);
  }

  lemma Products(b: nat, c: nat, q: nat, r: nat)
    requires b >= 1 && r < c
    ensures b * (c * q + r) == (b * c) * q + b * r && b * r + b <= b * c
  {
    assert b * (c * q) == (b * c) * q;
    assert b * (r + 1) <= b * c;
  }

  lemma Quotient(v: nat, d: nat, q: nat, r: nat)
    requires d >= 1 && v == d * q + r && r < d
    ensures Div(v, d) == q
  {
    hide Div;
    var p := Div(v, d);
    var e := DivIs(v, d);
    Multiple(d, p - q);
    assert d * (p - q) == d * p - d * q;
  }

  lemma Multiple(d: int, k: int)
    requires d >= 1
    ensures k >= 1 ==> d * k >= d
    ensures k <= -1 ==> d * k <= -d
  {
  }

  lemma {:induction false} Pow128Positive(n: nat)
    ensures Pow128(n) >= 1
  {
    if n > 0 { Pow128Positive(n - 1); }
  }

  lemma {:induction false} Pow256Positive(n: nat)
    ensures Pow256(n) >= 1
  {
    if n > 0 { Pow256Positive(n - 1); }
  }

  /** Byte i of a varint holds the bits from 7 * i on, and its top bit is set exactly when more bytes follow. */
  lemma {:induction false} VarintBytes(v: nat, i: nat)
    requires i < |Varint(v)|
    ensures Pow128(i) >= 1 && Varint(v)[i] % 128 == v / Pow128(i) % 128
    ensures Varint(v)[i] >= 128 <==> i + 1 < |Varint(v)|
    decreases i
  {
    if v < 128 {
      assert v / 1 == v;
    } else if i == 0 {
      assert (v % 128 + 128) % 128 == v % 128 && v / 1 == v;
      assert |Varint(v)| == 1 + |Varint(v / 128)|;
    } else {
      VarintBytes(v / 128, i - 1);
      DivDiv(v, 128, Pow128(i - 1));
      assert Varint(v)[i] == Varint(v / 128)[i - 1];
    }
  }

  /** A varint is as short as its value allows. */
  lemma {:induction false} VarintLength(v: nat, n: nat)
    requires n >= 1
    ensures |Varint(v)| <= n <==> v < Pow128(n)
  {
    if n == 1 {
      assert Pow128(1) == 128;
    } else if v >= 128 {
      VarintLength(v / 128, n - 1);
    } else {
      Pow128Positive(n - 1);
    }
  }

  /** The bytes of a number, high byte first. */
  lemma {:induction false} BigEndianBytes(v: nat, n: nat, i: nat)
    requires i < n
    ensures |BigEndian(v, n)| == n && Pow256(n - 1 - i) >= 1 && BigEndian(v, n)[i] == v / Pow256(n - 1 - i) % 256
  {
    if n == 1 {
      assert v / 1 == v;
    } else {
      BigEndianBytes(v / 256, n - 1, if i < n - 1 then i else 0);
      if i < n - 1 { DivDiv(v, 256, Pow256(n - 2 - i)); } else { assert v / 1 == v; }
    }
  }

  /** The first byte of an ASN.1 length is the length itself, or 128 and the number of bytes that follow. */
  lemma Asn1Tag(v: nat)
    ensures v < 128 ==> Asn1(v) == [v]
    ensures v >= 128 ==> |Asn1(v)| >= 2 && Asn1(v)[0] == 128 + |Asn1(v)| - 1 && Asn1(v)[1..] == BigEndian(v, |Asn1(v)| - 1)
    ensures |Asn1(v)| == if v < 128 then 1 else if v < 256 then 2 else if v < 65536 then 3 else if v < 16777126 then 4 else 5
  {
    if v >= 128 {
      var n := if v < 256 then 1 else if v < 65536 then 2 else if v < 16777126 then 3 else 4;
      BigEndianBytes(v, n, 0);
      if n == 1 { assert BigEndian(v, 1) == BigEndian(v / 256, 0) + [v % 256] == [v]; }
    }
  }

  /** v on n groups, all but the last with the top bit set. */
  function Groups(v: nat, n: nat): (s: Bytes)
    requires n >= 1 && v < Pow128(n)
    ensures |s| == n
  {
    if n == 1 then [v] else [v % 128 + 128] + Groups(v / 128, n - 1)
  }

  lemma {:induction false} GroupsDecode(v: nat, n: nat, rest: Bytes)
    requires n >= 1 && v < Pow128(n)
    ensures CodeSize(Groups(v, n) + rest) == n && GroupsValue(Groups(v, n)) == v
    decreases n
  {
    var g := Groups(v, n);
    if n == 1 {
      assert g[1..] == [];
    } else {
      GroupsDecode(v / 128, n - 1, rest);
      assert g[1..] == Groups(v / 128, n - 1);
      assert (g + rest)[1..] == Groups(v / 128, n - 1) + rest;
      assert (v % 128 + 128) % 128 == v % 128;
    }
  }

  /** A varint of up to ten bytes need not be the shortest: any number of groups is read, on 64 bits. */
  lemma GroupsDecoded(v: nat, n: nat, rest: Bytes)
    requires 1 <= n <= 10 && v < Pow128(n)
    ensures VarintDecoded(Groups(v, n) + rest) == Value(v % TWO64, n)
  {
    hide Groups, GroupsValue, CodeSize, Pow128;
    GroupsDecode(v, n, rest);
    var s := Groups(v, n);
    assert (s + rest)[..n] == s;
  }

  /** Bytes that all go on: fewer than ten ask for more, ten are malformed. */
  lemma {:induction false} GoingOn(s: seq<Byte>)
    requires forall i :: 0 <= i < |s| && i < 10 ==> s[i] >= 128
    ensures |s| >= 10 ==> CodeSize(s) > 10
    ensures |s| < 10 ==> CodeSize(s) > |s|
  {
    AllOn(s, if |s| < 10 then |s| else 10);
  }

  lemma {:induction false} AllOn(s: seq<Byte>, k: nat)
    requires k <= |s| && forall i :: 0 <= i < k ==> s[i] >= 128
    ensures CodeSize(s) > k
  {
    if k > 0 { AllOn(s[1..], k - 1); }
  }

  lemma VarintOverlong(s: seq<Byte>)
    requires |s| >= 1 && forall i :: 0 <= i < |s| && i < 10 ==> s[i] >= 128
    ensures VarintDecoded(s) == if |s| < 10 then NeedMore else Malformed
  {
    GoingOn(s);
  }

  /** The long form on any number of bytes, also more than needed; it asks for more until they are all there. */
  lemma LongFormDecoded(v: nat, n: nat, rest: Bytes)
    requires 1 <= n <= 127 && v < Pow256(n)
    ensures Asn1Decoded([128 + n] + BigEndian(v, n) + rest) == Value(v % TWO64, n + 1)
  {
    BigEndianValue(v, n);
    hide BigEndian, BytesValue, Pow256;
    var s := [128 + n] + BigEndian(v, n) + rest;
    assert s[0] == 128 + n && s[1..n + 1] == BigEndian(v, n);
  }

  /** It asks for more until all its bytes are there; the indefinite form is refused. */
  lemma LongFormWaits(n: nat, s: Bytes)
    requires n <= 127 && |s| < n
    ensures Asn1Decoded([128 + n] + s) == NeedMore && Asn1Decoded([128] + s) == Malformed
  {
    var t := [128 + n] + s;
    assert t[0] == 128 + n && ([128] + s)[0] == 128;
  }

  // ---- MQTT fixed header

  /** mqtt_head_t: the widths of its bit fields are 4, 1, 2 and 1, and the length has 32 bits. */
  datatype Head = Head(kind: nat, dup: nat, qos: nat, retain: nat, length: nat)

  ghost predicate ValidHead(h: Head) {
    h.kind < 16 && h.dup < 2 && h.qos < 4 && h.retain < 2 && h.length < TWO32
  }

  /** mqtt_head_pack */
  function HeadPack(h: Head): seq<Byte>
    requires ValidHead(h)
  {
    [h.kind * 16 + h.dup * 8 + h.qos * 2 + h.retain] + Varint(h.length)
  }

  datatype Unpacked = Unpacked(head: Head, size: int)

  /** mqtt_head_unpack on |s| >= 2 bytes; size is the result of the source, 0 when bytes are missing. */
  function HeadUnpack(s: seq<Byte>): Unpacked
    requires |s| >= 2
  {
    var d := VarintDecoded(s[1..]);
    var length := if d.Value? then d.v % TWO32 else 0;
    Unpacked(Head(s[0] / 16, s[0] / 8 % 2, s[0] / 2 % 4, s[0] % 2, length),
             if d.Value? then 1 + d.size else if d.NeedMore? then 0 else -1)
  }

  lemma FlagsRoundTrip(h: Head)
    requires ValidHead(h)
    ensures var b := h.kind * 16 + h.dup * 8 + h.qos * 2 + h.retain;
      b < 256 && b / 16 == h.kind && b / 8 % 2 == h.dup && b / 2 % 4 == h.qos && b % 2 == h.retain
  {
    var b := h.kind * 16 + h.dup * 8 + h.qos * 2 + h.retain;
    assert b / 8 == h.kind * 2 + h.dup && b / 2 == h.kind * 8 + h.dup * 4 + h.qos;
  }

  function Bit(b: nat, i: nat): nat { b / (if i == 0 then 1 else if i == 1 then 2 else if i == 2 then 4 else 8) % 2 }

  lemma FlagBits(kind: nat, a: nat, b: nat, c: nat, d: nat)
    requires a < 2 && b < 2 && c < 2 && d < 2
    ensures var x := kind * 16 + a * 8 + b * 4 + c * 2 + d;
      x / 16 == kind && Bit(x, 3) == a && Bit(x, 2) == b && Bit(x, 1) == c && Bit(x, 0) == d
  {
    var x3 := kind * 2 + a;
    var x2 := x3 * 2 + b;
    var x1 := x2 * 2 + c;
    var x := x1 * 2 + d;
    Halved(kind, a);
    Halved(x3, b);
    Halved(x2, c);
    Halved(x1, d);
    Halves(x);
  }

  lemma Halved(x: nat, d: nat)
    requires d < 2
    ensures (x * 2 + d) / 2 == x && (x * 2 + d) % 2 == d
  {
  }

  lemma Halves(x: nat)
    ensures x / 4 == x / 2 / 2 && x / 8 == x / 2 / 2 / 2 && x / 16 == x / 2 / 2 / 2 / 2
  {
  }

  /** The places in the first byte: kind in the high four bits, dup in bit 3, qos in bits 2 and 1, retain in bit 0. */
  lemma HeadBits(h: Head)
    requires ValidHead(h)
    ensures var b := HeadPack(h)[0];
      b / 16 == h.kind && Bit(b, 3) == h.dup && 2 * Bit(b, 2) + Bit(b, 1) == h.qos && Bit(b, 0) == h.retain
    ensures HeadPack(h)[1..] == Varint(h.length)
  {
    hide Varint;
    var b := HeadPack(h)[0];
    var q1, q0 := h.qos / 2, h.qos % 2;
    assert b == h.kind * 16 + h.dup * 8 + q1 * 4 + q0 * 2 + h.retain;
    FlagBits(h.kind, h.dup, q1, q0, h.retain);
  }

  /** A header with a malformed length is refused; one whose length goes on is waited for. */
  lemma HeadRefused(b: Byte, s: seq<Byte>)
    requires |s| >= 1 && forall i :: 0 <= i < |s| && i < 10 ==> s[i] >= 128
    ensures HeadUnpack([b] + s).size == if |s| < 10 then 0 else -1
  {
    VarintOverlong(s);
    assert ([b] + s)[1..] == s;
  }

  lemma HeadRoundTrip(h: Head, rest: seq<Byte>)
    requires ValidHead(h)
    ensures HeadUnpack(HeadPack(h) + rest) == Unpacked(h, |HeadPack(h)|)
    ensures forall k :: 2 <= k < |HeadPack(h)| ==> HeadUnpack(HeadPack(h)[..k]).size == 0
  {
    hide Varint, VarintDecoded;
    VarintRoundTrip(h.length, rest);
    FlagsRoundTrip(h);
    assert (HeadPack(h) + rest)[1..] == Varint(h.length) + rest;
    forall k | 2 <= k < |HeadPack(h)| ensures HeadUnpack(HeadPack(h)[..k]).size == 0 {
      assert HeadPack(h)[..k][1..] == Varint(h.length)[..k - 1];
    }
  }
}
