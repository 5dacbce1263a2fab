/**
  What parse_multipart makes of the parser's callbacks (http/http_content.cpp:135-248).
  */
module FormSpec {

  import opened Basics
  import opened MultipartSpec
  import opened MultipartGrammar
  import opened FormText

  /** multipart_parser_userdata; run holds the bytes of the header name that is being handed over. */
  datatype User = User(mp: map<Bytes, FormData>, field: Bytes, val: Bytes, data: Bytes,
                       name: Bytes, filename: Bytes, run: Bytes)

  /** split: the source walks a C string. */
  function Split(s: Bytes, d: Byte): (r: seq<Bytes>)
    ensures |r| >= 1
  {
    Pieces(CStr(s), d)
  }

  /** One parameter of a Content-Disposition header. */
  function Param(u: User, piece: Bytes): User {
    var kv := Split(Trim(piece), EQUALS);
    if |kv| != 2 then u
    else if kv[0] == Ascii("name") then u.(name := TrimPairs(kv[1]))
    else if kv[0] == Ascii("filename") then u.(filename := TrimPairs(kv[1]))
    else u
  }

  function Params(u: User, pieces: seq<Bytes>): User
    decreases |pieces|
  {
    if pieces == [] then u else Params(Param(u, pieces[0]), pieces[1..])
  }

  function Lowered(s: Bytes): Bytes {
    seq(|s|, i requires 0 <= i < |s| => Lower(s[i]))
  }

  /** handle_header. */
  function HandleHeader(u: User): User {
    if u.field == [] || u.val == [] then u
    else
      var v := if Lowered(CStr(u.field)) == Lowered(Ascii("Content-Disposition"))
               then Params(u, Split(u.val, SEMICOLON)) else u;
      v.(field := [], val := [])
  }

  /** handle_data. */
  function HandleData(u: User): User {
    var mp := if u.name != [] then u.mp[u.name := FormData(u.filename, u.data)] else u.mp;
    u.(mp := mp, name := [], filename := [], data := [])
  }

  /** The callbacks. */
  function OnItem(u: User, item: Item): User {
    match item
    case PartBegin => u
    case Field(b) => u.(run := u.run + [b])
    case NameEnd => var v := HandleHeader(u); v.(field := v.field + v.run, run := [])
    case Val(b) => u.(val := u.val + [b])
    case HeadersComplete => HandleHeader(u)
    case Data(b) => u.(data := u.data + [b])
    case PartEnd => HandleData(u)
    case BodyEnd => u
  }

  function OnItems(u: User, items: seq<Item>): User
    decreases |items|
  {
    if items == [] then u else OnItems(OnItem(u, items[0]), items[1..])
  }

  lemma {:induction false} OnItemsSplits(u: User, x: seq<Item>, y: seq<Item>)
    ensures OnItems(u, x + y) == OnItems(OnItems(u, x), y)
    decreases |x|
  {
    if x == [] {
      assert x + y == y;
    } else {
      assert (x + y)[1..] == x[1..] + y;
      OnItemsSplits(OnItem(u, x[0]), x[1..], y);
    }
  }

  lemma {:induction false} OnFields(u: User, s: Bytes)
    ensures OnItems(u, FieldsOf(s)) == u.(run := u.run + s)
    decreases |s|
  {
    if s == [] {
      assert u.run + s == u.run;
    } else {
      assert FieldsOf(s)[1..] == FieldsOf(s[1..]);
      OnFields(u.(run := u.run + [s[0]]), s[1..]);
      assert u.run + [s[0]] + s[1..] == u.run + s;
    }
  }

  lemma {:induction false} OnValues(u: User, s: Bytes)
    ensures OnItems(u, ValuesOf(s)) == u.(val := u.val + s)
    decreases |s|
  {
    if s == [] {
      assert u.val + s == u.val;
    } else {
      assert ValuesOf(s)[1..] == ValuesOf(s[1..]);
      OnValues(u.(val := u.val + [s[0]]), s[1..]);
      assert u.val + [s[0]] + s[1..] == u.val + s;
    }
  }

  lemma {:induction false} OnData(u: User, s: Bytes)
    ensures OnItems(u, DataOf(s)) == u.(data := u.data + s)
    decreases |s|
  {
    if s == [] {
      assert u.data + s == u.data;
    } else {
      assert DataOf(s)[1..] == DataOf(s[1..]);
      OnData(u.(data := u.data + [s[0]]), s[1..]);
      assert u.data + [s[0]] + s[1..] == u.data + s;
    }
  }

  // ---- Content-Disposition, as a sender writes it

  datatype Quote = Double | Single | Bare

  function Mark(q: Quote): Bytes {
    match q
    case Double => [34]
    case Single => [39]
    case Bare => []
  }

  /** A parameter: spaces, key, equals sign, value in its quotes, spaces. */
  datatype Parameter = Parameter(lead: nat, key: Bytes, quote: Quote, value: Bytes, trail: nat)

  /** Bytes that mean nothing else in the value of a header. */
  predicate Plain(s: Bytes) { SEMICOLON !in s && EQUALS !in s && CR !in s && NUL !in s }

  predicate ParameterOk(p: Parameter) {
    && Plain(p.key) && p.key != [] && p.key[0] != SPACE && Plain(p.value)
    && (p.quote.Bare? && p.value != [] ==>
          p.value[|p.value| - 1] != SPACE && (p.value[0] != p.value[|p.value| - 1] || (p.value[0] != 34 && p.value[0] != 39)))
  }

  function Core(p: Parameter): Bytes { p.key + [EQUALS] + (Mark(p.quote) + p.value + Mark(p.quote)) }

  function ParameterBytes(p: Parameter): Bytes { Spaces(p.lead) + Core(p) + Spaces(p.trail) }

  /** What follows the kind of disposition. */
  function ParametersBytes(ps: seq<Parameter>): Bytes {
    if ps == [] then [] else [SEMICOLON] + ParameterBytes(ps[0]) + ParametersBytes(ps[1..])
  }

  /** The value of the last parameter with the key, or else the given one. */
  function ValueOf(ps: seq<Parameter>, key: Bytes, none: Bytes): Bytes {
    if ps == [] then none else ValueOf(ps[1..], key, if ps[0].key == key then ps[0].value else none)
  }

  lemma {:induction false} TrimLeftSpaces(n: nat, s: Bytes)
    requires s == [] || s[0] != SPACE
    ensures TrimLeft(Spaces(n) + s) == s
  {
    if n == 0 {
      assert Spaces(0) + s == s;
    } else {
      assert (Spaces(n) + s)[1..] == Spaces(n - 1) + s;
      TrimLeftSpaces(n - 1, s);
    }
  }

  lemma {:induction false} TrimRightSpaces(s: Bytes, n: nat)
    requires s == [] || s[|s| - 1] != SPACE
    ensures TrimRight(s + Spaces(n)) == s
  {
    var t := s + Spaces(n);
    if n == 0 {
      assert t == s;
    } else {
      assert t[..|t| - 1] == s + Spaces(n - 1);
      TrimRightSpaces(s, n - 1);
    }
  }

  /** One parameter is read as its sender meant it. */
  lemma ParameterRead(u: User, p: Parameter)
    requires ParameterOk(p)
    ensures Param(u, ParameterBytes(p)) ==
      if p.key == Ascii("name") then u.(name := p.value)
      else if p.key == Ascii("filename") then u.(filename := p.value) else u
  {
    hide Ascii;
    var q := Mark(p.quote) + p.value + Mark(p.quote);
    var core := Core(p);
    Associative(Spaces(p.lead), core, Spaces(p.trail));
    TrimLeftSpaces(p.lead, core + Spaces(p.trail));
    TrimRightSpaces(core, p.trail);
    CStrAll(core);
    PiecesJoined(p.key, EQUALS, q);
    PiecesWhole(q, EQUALS);
    assert [p.key] + [q] == [p.key, q];
    Unquoted(p);
  }

  lemma Unquoted(p: Parameter)
    requires ParameterOk(p)
    ensures TrimPairs(Mark(p.quote) + p.value + Mark(p.quote)) == p.value
  {
    var q := Mark(p.quote) + p.value + Mark(p.quote);
    if p.quote.Bare? {
      assert q == p.value;
    } else {
      assert q[1..|q| - 1] == p.value;
    }
  }

  /** A lone quote is stripped, and quotes that do not match are kept. */
  lemma OddQuotes(value: Bytes)
    requires value != [] && value[|value| - 1] != 34 && value[|value| - 1] != 39
    ensures TrimPairs([34]) == [] && TrimPairs([39]) == []
    ensures TrimPairs([34] + value) == [34] + value && TrimPairs([39] + value) == [39] + value
    ensures TrimPairs([34] + value + [39]) == [34] + value + [39]
  {
    assert ([34] + value)[|value|] == value[|value| - 1] && ([39] + value)[|value|] == value[|value| - 1];
  }

  /** A parameter with more than one equals sign is ignored. */
  lemma TwoEquals(u: User, x: Bytes, y: Bytes, z: Bytes)
    requires Plain(x) && Plain(y) && NUL !in z && x != [] && x[0] != SPACE && (z == [] || z[|z| - 1] != SPACE)
    ensures Param(u, x + [EQUALS] + (y + [EQUALS] + z)) == u
  {
    var t := y + [EQUALS] + z;
    var s := x + [EQUALS] + t;
    assert s[0] == x[0] && s[|s| - 1] == if z == [] then EQUALS else z[|z| - 1];
    assert TrimLeft(s) == s && TrimRight(s) == s;
    CStrAll(s);
    PiecesJoined(x, EQUALS, t);
    PiecesJoined(y, EQUALS, z);
  }

  lemma ParameterPlain(p: Parameter)
    requires ParameterOk(p)
    ensures SEMICOLON !in ParameterBytes(p) && NUL !in ParameterBytes(p) && CR !in ParameterBytes(p)
  {
  }

  lemma {:induction false} ParametersPlain(ps: seq<Parameter>)
    requires forall p :: p in ps ==> ParameterOk(p)
    ensures NUL !in ParametersBytes(ps) && CR !in ParametersBytes(ps)
  {
    if ps != [] {
      ParameterPlain(ps[0]);
      hide ParameterOk, ParameterBytes;
      assert forall p :: p in ps[1..] ==> p in ps;
      ParametersPlain(ps[1..]);
    }
  }

  function Texts(ps: seq<Parameter>): (r: seq<Bytes>)
    ensures |r| == |ps|
  {
    if ps == [] then [] else [ParameterBytes(ps[0])] + Texts(ps[1..])
  }

  lemma {:induction false} PiecesOf(kind: Bytes, ps: seq<Parameter>)
    requires SEMICOLON !in kind && forall p :: p in ps ==> ParameterOk(p)
    ensures Pieces(kind + ParametersBytes(ps), SEMICOLON) == [kind] + Texts(ps)
    decreases |ps|
  {
    if ps == [] {
      assert kind + [] == kind;
      PiecesWhole(kind, SEMICOLON);
    } else {
      var x, y := ParameterBytes(ps[0]), ParametersBytes(ps[1..]);
      assert ParametersBytes(ps) == [SEMICOLON] + x + y && Texts(ps) == [x] + Texts(ps[1..]);
      ParameterPlain(ps[0]);
      hide ParameterOk, ParameterBytes, ParametersBytes, Texts, Pieces;
      assert forall p :: p in ps[1..] ==> p in ps;
      PiecesOf(x, ps[1..]);
      Associative([SEMICOLON], x, y);
      Associative(kind, [SEMICOLON], x + y);
      PiecesJoined(kind, SEMICOLON, x + y);
    }
  }

  lemma {:induction false} ParametersRead(u: User, ps: seq<Parameter>)
    requires forall p :: p in ps ==> ParameterOk(p)
    ensures Params(u, Texts(ps)) ==
      u.(name := ValueOf(ps, Ascii("name"), u.name), filename := ValueOf(ps, Ascii("filename"), u.filename))
    decreases |ps|
  {
    if ps != [] {
      ParameterRead(u, ps[0]);
      KeysDiffer();
      hide Param, ParameterOk, ParameterBytes, Ascii;
      assert forall p :: p in ps[1..] ==> p in ps;
      assert Texts(ps)[1..] == Texts(ps[1..]);
      ParametersRead(Param(u, ParameterBytes(ps[0])), ps[1..]);
    }
  }

  lemma KeysDiffer()
    ensures Ascii("name") == [110, 97, 109, 101] && Ascii("filename") == [102, 105, 108, 101, 110, 97, 109, 101]
  {
  }

  /** The kind of disposition: no parameter. */
  lemma KindIgnored(u: User, kind: Bytes)
    requires Plain(kind)
    ensures Param(u, kind) == u
  {
    TrimPart(kind);
    var t := Trim(kind);
    CStrAll(t);
    PiecesWhole(t, EQUALS);
  }

  lemma TrimPart(s: Bytes)
    requires Plain(s)
    ensures NUL !in Trim(s) && EQUALS !in Trim(s)
  {
    TrimLeftPart(s);
    TrimRightPart(TrimLeft(s));
  }

  lemma {:induction false} TrimLeftPart(s: Bytes)
    ensures forall c :: c in TrimLeft(s) ==> c in s
  {
    if s != [] && s[0] == SPACE { TrimLeftPart(s[1..]); }
  }

  lemma {:induction false} TrimRightPart(s: Bytes)
    ensures forall c :: c in TrimRight(s) ==> c in s
    decreases |s|
  {
    if s != [] && s[|s| - 1] == SPACE { TrimRightPart(s[..|s| - 1]); }
  }

  // ---- header names in any case

  /** The same letter, large or small. */
  predicate SameLetter(x: Byte, y: Byte) {
    x == y || (65 <= x <= 90 && y as int == x as int + 32) || (65 <= y <= 90 && x as int == y as int + 32)
  }

  predicate SameName(a: Bytes, b: Bytes) {
    |a| == |b| && forall i :: 0 <= i < |a| ==> SameLetter(a[i], b[i])
  }

  lemma SameNameLowered(a: Bytes, b: Bytes)
    ensures SameName(a, b) <==> Lowered(a) == Lowered(b)
  {
    if Lowered(a) == Lowered(b) {
      assert |a| == |Lowered(a)| == |b|;
      forall i | 0 <= i < |a| ensures SameLetter(a[i], b[i]) { assert Lowered(a)[i] == Lowered(b)[i]; }
    }
  }

  /** The value of a Content-Disposition header. */
  predicate Disposes(value: Bytes, kind: Bytes, ps: seq<Parameter>) {
    Plain(kind) && (forall p :: p in ps ==> ParameterOk(p)) && value == kind + ParametersBytes(ps)
  }

  /** handle_header on a complete header: Content-Disposition, in any case, sets name and file name; other headers do nothing. */
  lemma HeaderRead(u: User, kind: Bytes, ps: seq<Parameter>)
    requires u.field != [] && u.val != [] && NUL !in u.field
    ensures !SameName(u.field, Ascii("Content-Disposition")) ==> HandleHeader(u) == u.(field := [], val := [])
    ensures SameName(u.field, Ascii("Content-Disposition")) && Disposes(u.val, kind, ps) ==>
      HandleHeader(u) == u.(field := [], val := [], name := ValueOf(ps, Ascii("name"), u.name),
                            filename := ValueOf(ps, Ascii("filename"), u.filename))
  {
    hide Ascii, Params, Lowered, SameName, Plain, ParameterOk, ParametersBytes;
    CStrAll(u.field);
    SameNameLowered(u.field, Ascii("Content-Disposition"));
    if Disposes(u.val, kind, ps) {
      DispositionRead(u, kind, ps);
    }
  }

  lemma DispositionRead(u: User, kind: Bytes, ps: seq<Parameter>)
    requires Plain(kind) && forall p :: p in ps ==> ParameterOk(p)
    ensures Params(u, Split(kind + ParametersBytes(ps), SEMICOLON)) ==
      u.(name := ValueOf(ps, Ascii("name"), u.name), filename := ValueOf(ps, Ascii("filename"), u.filename))
  {
    ParametersPlain(ps);
    CStrAll(kind + ParametersBytes(ps));
    PiecesOf(kind, ps);
    KindIgnored(u, kind);
    hide Ascii, Param, Plain, ParameterOk, ParametersBytes, Pieces;
    assert ([kind] + Texts(ps))[1..] == Texts(ps);
    ParametersRead(u, ps);
  }
}
