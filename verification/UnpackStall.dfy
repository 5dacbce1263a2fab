/**
  Packages of length 0 in event/unpack.c:163-168: the loop hands over no bytes and does not advance,
  so it never ends.
  */
module UnpackStall {

  import opened Basics
  import opened Codec
  import opened UnpackSpec

  /** The one value of a length field of that size, on 32 bits, for which the package length comes to 0. */
  function Residue(u: Setting, size: nat): nat
    requires u.LengthField?
  {
    (-(u.bodyOffset + size - u.fieldBytes + u.adjustment)) % TWO32
  }

  lemma Opposite(v: nat, k: int)
    requires v < TWO32
    ensures (k + v) % TWO32 == 0 <==> v == (-k) % TWO32
  {
    assert k == TWO32 * (k / TWO32) + k % TWO32;
    assert -k == TWO32 * ((-k) / TWO32) + (-k) % TWO32;
  }

  /** Exactly when a package of length 0 stands at the front, in every mode, coding and adjustment. */
  lemma EmptyPackage(u: Setting, s: Bytes)
    requires ValidSetting(u)
    ensures FrontOf(u, s).Empty? <==>
      u.LengthField? && |s| >= u.bodyOffset && Field(u, s).Value? && Field(u, s).v == Residue(u, Field(u, s).size)
  {
    if u.LengthField? && |s| >= u.bodyOffset {
      hide Field;
      FieldBound(u, s);
      var f := Field(u, s);
      if f.Value? {
        Opposite(f.v, u.bodyOffset + f.size - u.fieldBytes + u.adjustment);
        assert PackageLen(u, f) == (u.bodyOffset + f.size - u.fieldBytes + u.adjustment + f.v) % TWO32;
      }
    }
  }

  lemma FieldBound(u: Setting, s: Bytes)
    requires u.LengthField? && ValidSetting(u) && |s| >= u.bodyOffset
    ensures Field(u, s).Value? ==> 0 <= Field(u, s).v < TWO32
  {
  }

  // ---- the settings that can meet such a package

  /** A length field of n bytes can hold the residue; the variable codings can hold any value. */
  predicate CanStall(u: Setting) {
    u.LengthField? &&
    match u.coding
    case BigEndianCoding => Residue(u, u.fieldBytes) < Pow256(u.fieldBytes)
    case LittleEndianCoding => Residue(u, u.fieldBytes) < Pow256(u.fieldBytes)
    case VarintCoding => true
    case Asn1Coding => true
    case UnknownCoding => false
  }

  lemma {:induction false} BytesValueBound(s: Bytes)
    ensures BytesValue(s) < Pow256(|s|)
    decreases |s|
  {
    if s != [] { BytesValueBound(s[..|s| - 1]); }
  }

  lemma {:induction false} LittleEndianBound(s: Bytes)
    ensures LittleEndian(s) < Pow256(|s|)
    decreases |s|
  {
    if s != [] { LittleEndianBound(s[1..]); }
  }

  lemma FiveGroups(v: nat)
    requires v < TWO32
    ensures v < Pow128(5) && v < Pow256(4)
  {
    assert Pow128(5) == 34359738368 && Pow256(4) == TWO32;
  }

  function Zeros(n: nat): Bytes { seq(n, _ => 0) }

  /** A stream with the code of a length of 0 at the place of the length field. */
  function StallingStream(u: Setting): Bytes
    requires CanStall(u)
  {
    Zeros(u.fieldOffset) + StallingCode(u) + Zeros(u.bodyOffset)
  }

  function StallingCode(u: Setting): Bytes
    requires CanStall(u)
  {
    match u.coding
    case BigEndianCoding => BigEndian(Residue(u, u.fieldBytes), u.fieldBytes)
    case LittleEndianCoding => LittleCode(Residue(u, u.fieldBytes), u.fieldBytes)
    case VarintCoding =>
      FiveGroups(Residue(u, 5));
      Groups(Residue(u, 5), 5)
    case _ => [0x84] + BigEndian(Residue(u, 5), 4)
  }

  /** The bytes at the length field of a stream with the code there. */
  lemma FieldAt(n: nat, code: Bytes, rest: Bytes)
    ensures (Zeros(n) + code + rest)[n..] == code + rest
    ensures (Zeros(n) + code + rest)[n..n + |code|] == code
  {
  }

  lemma Stalls(u: Setting)
    requires ValidSetting(u) && CanStall(u)
    ensures FrontOf(u, StallingStream(u)).Empty?
  {
    var code, rest, n := StallingCode(u), Zeros(u.bodyOffset), u.fieldOffset;
    var s := StallingStream(u);
    FieldAt(n, code, rest);
    var size := if u.coding.VarintCoding? || u.coding.Asn1Coding? then 5 else u.fieldBytes;
    assert Field(u, s) == Value(Residue(u, size), size) by {
      StallingField(u, s, code, rest);
    }
    hide Field, StallingStream;
    EmptyPackage(u, s);
  }

  lemma StallingField(u: Setting, s: Bytes, code: Bytes, rest: Bytes)
    requires ValidSetting(u) && CanStall(u) && code == StallingCode(u)
    requires |s| >= u.bodyOffset && |s| >= u.fieldOffset + |code|
    requires s[u.fieldOffset..] == code + rest && s[u.fieldOffset..u.fieldOffset + |code|] == code
    ensures var size := if u.coding.VarintCoding? || u.coding.Asn1Coding? then 5 else u.fieldBytes;
      Field(u, s) == Value(Residue(u, size), size)
  {
    hide VarintDecoded, Asn1Decoded, BigEndian, LittleCode, Groups, BytesValue, LittleEndian, Pow256, Pow128;
    match u.coding {
      case BigEndianCoding => BigEndianValue(Residue(u, u.fieldBytes), u.fieldBytes);
      case LittleEndianCoding => LittleCodeValue(Residue(u, u.fieldBytes), u.fieldBytes);
      case VarintCoding =>
        FiveGroups(Residue(u, 5));
        GroupsDecoded(Residue(u, 5), 5, rest);
      case Asn1Coding =>
        FiveGroups(Residue(u, 5));
        LongFormDecoded(Residue(u, 5), 4, rest);
      case UnknownCoding =>
    }
  }

  lemma NeverStalls(u: Setting, s: Bytes)
    requires ValidSetting(u) && !CanStall(u)
    ensures !FrontOf(u, s).Empty?
  {
    EmptyPackage(u, s);
    if u.LengthField? && |s| >= u.bodyOffset {
      var f := s[u.fieldOffset..u.fieldOffset + u.fieldBytes];
      BytesValueBound(f);
      LittleEndianBound(f);
    }
  }

  /** A setting is free of such packages for every stream exactly when the length field cannot hold the residue. */
  lemma StallFree(u: Setting)
    requires ValidSetting(u)
    ensures (forall s :: !FrontOf(u, s).Empty?) <==> !CanStall(u)
  {
    if CanStall(u) {
      Stalls(u);
    } else {
      forall s ensures !FrontOf(u, s).Empty? { NeverStalls(u, s); }
    }
  }

  // ---- settings that can

  /** The recommended setting of event/hloop.h:539-551: the sum wraps around to 0. */
  lemma RecommendedStalls()
    ensures CanStall(LengthField(5, 1, 4, 0, BigEndianCoding))
    ensures FrontOf(LengthField(5, 1, 4, 0, BigEndianCoding), [0, 0xFF, 0xFF, 0xFF, 0xFB]).Empty?
  {
    assert Pow256(4) == TWO32;
    var s: Bytes := [0, 0xFF, 0xFF, 0xFF, 0xFB];
    FourBytes(0xFF, 0xFF, 0xFF, 0xFB);
    assert s[1..5] == [0xFF, 0xFF, 0xFF, 0xFB];
    EmptyPackage(LengthField(5, 1, 4, 0, BigEndianCoding), s);
  }

  /** A length that includes the head, with the adjustment event/hloop.h:527 asks for: a length field of 0 is enough. */
  lemma WholeLengthStalls()
    ensures FrontOf(LengthField(5, 1, 4, -5, BigEndianCoding), [0, 0, 0, 0, 0]).Empty?
  {
    var s: Bytes := [0, 0, 0, 0, 0];
    FourBytes(0, 0, 0, 0);
    assert s[1..5] == [0, 0, 0, 0];
    EmptyPackage(LengthField(5, 1, 4, -5, BigEndianCoding), s);
  }

  lemma FourBytes(a: Byte, b: Byte, c: Byte, d: Byte)
    ensures BytesValue([a, b, c, d]) == 16777216 * a + 65536 * b + 256 * c + d
  {
    assert [a][..0] == [] && [a, b][..1] == [a] && [a, b, c][..2] == [a, b] && [a, b, c, d][..3] == [a, b, c];
    assert BytesValue([a]) == a;
    assert BytesValue([a, b]) == 256 * a + b;
    assert BytesValue([a, b, c]) == 65536 * a + 256 * b + c;
  }

  /** The MQTT setting of event/hloop.h:575-582. */
  lemma MqttStalls()
    ensures FrontOf(LengthField(2, 1, 1, 0, VarintCoding), [0x30, 0xFA, 0xFF, 0xFF, 0xFF, 0x0F]).Empty?
  {
    var u := LengthField(2, 1, 1, 0, VarintCoding);
    var s: Bytes := [0x30, 0xFA, 0xFF, 0xFF, 0xFF, 0x0F];
    var v := 0xFFFFFFFA;
    FiveGroups(v);
    MqttCode();
    assert s[1..] == Groups(v, 5) + [];
    GroupsDecoded(v, 5, []);
    assert Residue(u, 5) == v;
    EmptyPackage(u, s);
  }

  lemma MqttCode()
    ensures 0xFFFFFFFA < Pow128(5) && Groups(0xFFFFFFFA, 5) == [0xFA, 0xFF, 0xFF, 0xFF, 0x0F]
  {
    FiveGroups(0xFFFFFFFA);
    assert Pow128(1) == 128 && Pow128(2) == 16384 && Pow128(3) == 2097152 && Pow128(4) == 268435456;
    assert Groups(0x0F, 1) == [0x0F];
    assert Groups(0x7FF, 2) == [0xFF, 0x0F];
    assert Groups(0x3FFFF, 3) == [0xFF, 0xFF, 0x0F];
    assert Groups(0x1FFFFFF, 4) == [0xFF, 0xFF, 0xFF, 0x0F];
  }
}
