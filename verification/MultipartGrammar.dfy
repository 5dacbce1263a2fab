/**
  The bodies that http/multipart_parser.c reads, written as a sender writes them, and the bytes it
  refuses.
  */
module MultipartGrammar {

  import opened Basics
  import opened MultipartSpec
  import opened MultipartCuts
  import opened MultipartParts

  /** All of s is taken, and its header lines have colons; it leads from st to `end` and hands over the items. */
  predicate Leads(b: Bytes, st: PState, s: Bytes, items: seq<Item>, end: PState)
    requires |b| >= 1 && Fits(b, st)
  {
    Run(b, st, s) == Outcome(items, end, |s|) && Colons(b, st, s)
  }

  lemma LeadsJoin(b: Bytes, st: PState, s: Bytes, x: seq<Item>, mid: PState, t: Bytes, y: seq<Item>, end: PState)
    requires |b| >= 1 && Fits(b, st) && Fits(b, mid)
    requires Leads(b, st, s, x, mid) && Leads(b, mid, t, y, end)
    ensures Leads(b, st, s + t, x + y, end)
  {
    hide Run, Colons;
    RunSplits(b, st, s, t);
    ColonsJoin(b, st, s, t);
  }

  lemma LeadsStep(b: Bytes, st: PState, c: Byte)
    requires |b| >= 1 && Fits(b, st) && Step(b, st, c).Ok? && (st.HeaderField? ==> c != CR)
    ensures Leads(b, st, [c], Step(b, st, c).items, Step(b, st, c).st)
  {
    RunOne(b, st, c);
    assert [c][1..] == [];
    assert Colons(b, Step(b, st, c).st, []);
  }

  lemma LeadsTwo(b: Bytes, st: PState, c: Byte, d: Byte)
    requires |b| >= 1 && Fits(b, st) && Step(b, st, c).Ok? && Step(b, Step(b, st, c).st, d).Ok?
    requires !st.HeaderField? && !Step(b, st, c).st.HeaderField?
    ensures var r := Step(b, st, c); var q := Step(b, r.st, d);
      Leads(b, st, [c, d], r.items + q.items, q.st)
  {
    hide Leads, Step;
    var r := Step(b, st, c);
    var q := Step(b, r.st, d);
    LeadsStep(b, st, c);
    LeadsStep(b, r.st, d);
    LeadsJoin(b, st, [c], r.items, r.st, [d], q.items, q.st);
    assert [c] + [d] == [c, d];
  }

  lemma {:induction false} NameLeads(b: Bytes, st: PState, name: Bytes)
    requires |b| >= 1 && InName(st)
    requires forall i :: 0 <= i < |name| ==> LetterOrHyphen(name[i])
    ensures Leads(b, st, name + [COLON], FieldsOf(name) + [NameEnd], HeaderValueStart)
    decreases |name|
  {
    if name == [] {
      LeadsStep(b, st, COLON);
      assert name + [COLON] == [COLON] && FieldsOf(name) + [NameEnd] == [NameEnd];
    } else {
      var c, rest := name[0], name[1..];
      LeadsStep(b, st, c);
      NameLeads(b, HeaderField, rest);
      LeadsJoin(b, st, [c], [Field(c)], HeaderField, rest + [COLON], FieldsOf(rest) + [NameEnd], HeaderValueStart);
      assert [c] + (rest + [COLON]) == name + [COLON];
      assert [Field(c)] + (FieldsOf(rest) + [NameEnd]) == FieldsOf(name) + [NameEnd];
    }
  }

  lemma {:induction false} ValueLeads(b: Bytes, st: PState, v: Bytes)
    requires |b| >= 1 && (st.HeaderValue? || (st.HeaderValueStart? && (v == [] || v[0] != SPACE)))
    requires CR !in v
    ensures Leads(b, st, v + CRLF, ValuesOf(v), HeaderFieldStart)
    decreases |v|
  {
    if v == [] {
      LeadsTwo(b, st, CR, LF);
      assert v + CRLF == [CR, LF] && ValuesOf(v) == [] + [];
    } else {
      var c, rest := v[0], v[1..];
      LeadsStep(b, st, c);
      ValueLeads(b, HeaderValue, rest);
      LeadsJoin(b, st, [c], [Val(c)], HeaderValue, rest + CRLF, ValuesOf(rest), HeaderFieldStart);
      assert [c] + (rest + CRLF) == v + CRLF;
      assert [Val(c)] + ValuesOf(rest) == ValuesOf(v);
    }
  }

  // ---- header lines

  /** A to Z, a to z and the hyphen. */
  predicate LetterOrHyphen(c: Byte) { 65 <= c <= 90 || 97 <= c <= 122 || c == 45 }

  function Spaces(n: nat): Bytes { seq(n, _ => SPACE) }

  datatype HeaderLine = HeaderLine(name: Bytes, spaces: nat, value: Bytes)

  predicate LineOk(l: HeaderLine) {
    && (forall i :: 0 <= i < |l.name| ==> LetterOrHyphen(l.name[i]))
    && CR !in l.value && (l.value == [] || l.value[0] != SPACE)
  }

  function LineBytes(l: HeaderLine): Bytes { l.name + [COLON] + Spaces(l.spaces) + l.value + CRLF }

  function LineItems(l: HeaderLine): seq<Item> { FieldsOf(l.name) + [NameEnd] + ValuesOf(l.value) }

  lemma {:induction false} SpacesLead(b: Bytes, n: nat)
    requires |b| >= 1
    ensures Leads(b, HeaderValueStart, Spaces(n), [], HeaderValueStart)
  {
    if n > 0 {
      SpacesLead(b, n - 1);
      LeadsStep(b, HeaderValueStart, SPACE);
      LeadsJoin(b, HeaderValueStart, [SPACE], [], HeaderValueStart, Spaces(n - 1), [], HeaderValueStart);
      assert [SPACE] + Spaces(n - 1) == Spaces(n);
      var none: seq<Item> := [];
      assert none + none == none;
    }
  }

  /** A header line is read as its name, the end of the name and its value, without the leading spaces. */
  lemma LineLeads(b: Bytes, l: HeaderLine)
    requires |b| >= 1 && LineOk(l)
    ensures Leads(b, HeaderFieldStart, LineBytes(l), LineItems(l), HeaderFieldStart)
  {
    NameLeads(b, HeaderFieldStart, l.name);
    SpacesLead(b, l.spaces);
    ValueLeads(b, HeaderValueStart, l.value);
    hide Leads, FieldsOf, ValuesOf, Spaces;
    var n, sp, v := l.name + [COLON], Spaces(l.spaces), l.value + CRLF;
    LeadsJoin(b, HeaderFieldStart, n, FieldsOf(l.name) + [NameEnd], HeaderValueStart, sp, [], HeaderValueStart);
    assert FieldsOf(l.name) + [NameEnd] + [] == FieldsOf(l.name) + [NameEnd];
    LeadsJoin(b, HeaderFieldStart, n + sp, FieldsOf(l.name) + [NameEnd], HeaderValueStart, v, ValuesOf(l.value), HeaderFieldStart);
    Associative(n + sp, l.value, CRLF);
  }

  function LinesBytes(lines: seq<HeaderLine>): Bytes {
    if lines == [] then [] else LineBytes(lines[0]) + LinesBytes(lines[1..])
  }

  function LinesItems(lines: seq<HeaderLine>): seq<Item> {
    if lines == [] then [] else LineItems(lines[0]) + LinesItems(lines[1..])
  }

  lemma {:induction false} LinesLead(b: Bytes, lines: seq<HeaderLine>)
    requires |b| >= 1 && forall l :: l in lines ==> LineOk(l)
    ensures Leads(b, HeaderFieldStart, LinesBytes(lines), LinesItems(lines), HeaderFieldStart)
  {
    if lines != [] {
      assert lines[0] in lines && forall l :: l in lines[1..] ==> l in lines;
      LineLeads(b, lines[0]);
      LinesLead(b, lines[1..]);
      hide Leads, LineBytes, LineItems, LineOk;
      LeadsJoin(b, HeaderFieldStart, LineBytes(lines[0]), LineItems(lines[0]), HeaderFieldStart,
                LinesBytes(lines[1..]), LinesItems(lines[1..]), HeaderFieldStart);
    }
  }

  // ---- parts

  datatype Part = Part(lines: seq<HeaderLine>, data: Bytes)

  ghost predicate PartOk(b: Bytes, p: Part) {
    (forall l :: l in p.lines ==> LineOk(l)) && forall q: nat :: !OccursAt(Delimiter(b), p.data, q)
  }

  /** What stands between two boundaries, with the second. */
  function PartBytes(b: Bytes, p: Part): Bytes { CRLF + LinesBytes(p.lines) + CRLF + (p.data + (CRLF + b)) }

  function PartItems(p: Part): seq<Item> {
    [PartBegin] + LinesItems(p.lines) + ([HeadersComplete] + DataOf(p.data) + [PartEnd])
  }

  /** Contents without a delimiter stay without one when the delimiter follows. */
  lemma NoEarlier(b: Bytes, s: Bytes, q: nat)
    requires |b| >= 1 && CR !in b && q < |s|
    requires forall p: nat :: !OccursAt(Delimiter(b), s, p)
    ensures !OccursAt(Delimiter(b), s + Delimiter(b), q)
  {
    var d := Delimiter(b);
    if q + |d| <= |s| {
      assert (s + d)[q..q + |d|] == s[q..q + |d|];
      assert !OccursAt(d, s, q);
    } else {
      var k := |s| - q;
      assert (s + d)[q..q + |d|][k] == (s + d)[|s|] == CR;
      assert d[k] == LF || d[k] in b;
    }
  }

  lemma {:induction false} NoFieldsData(s: Bytes)
    ensures NoFields(DataOf(s)) == DataOf(s)
    decreases |s|
  {
    if s != [] {
      assert DataOf(s)[1..] == DataOf(s[1..]);
      NoFieldsData(s[1..]);
      assert [DataOf(s)[0]] + DataOf(s)[1..] == DataOf(s);
    }
  }

  lemma NoFieldsPart(s: Bytes)
    ensures var items := [HeadersComplete] + DataOf(s) + [PartEnd]; NoFields(items) == items
  {
    NoFieldsData(s);
    NoFieldsSplits([HeadersComplete] + DataOf(s), [PartEnd]);
    NoFieldsSplits([HeadersComplete], DataOf(s));
    assert NoFields([PartEnd]) == [PartEnd] && NoFields([HeadersComplete]) == [HeadersComplete];
  }

  /** From the end of the headers to the next delimiter. */
  lemma DataLeads(b: Bytes, s: Bytes)
    requires |b| >= 1 && CR !in b && forall p: nat :: !OccursAt(Delimiter(b), s, p)
    ensures Leads(b, PartDataStart, s + Delimiter(b), [HeadersComplete] + DataOf(s) + [PartEnd], AlmostEnd)
  {
    forall q: nat | q < |s| ensures !OccursAt(Delimiter(b), s + Delimiter(b), q) { NoEarlier(b, s, q); }
    PartExact(b, s);
    NoFieldsPart(s);
    hide Run, Colons, NoFields, DataOf, OccursAt;
    ColonsWithoutNames(b, PartDataStart, s + Delimiter(b));
  }

  lemma PartLeads(b: Bytes, p: Part)
    requires |b| >= 1 && CR !in b && PartOk(b, p)
    ensures Leads(b, AlmostEnd, PartBytes(b, p), PartItems(p), AlmostEnd)
  {
    LinesLead(b, p.lines);
    DataLeads(b, p.data);
    LeadsTwo(b, AlmostEnd, CR, LF);
    LeadsTwo(b, HeaderFieldStart, CR, LF);
    hide Leads, LinesBytes, LinesItems, DataOf, PartOk;
    var none: seq<Item>, x := [], LinesItems(p.lines);
    assert none + none == none && none + [PartBegin] == [PartBegin];
    LeadsJoin(b, AlmostEnd, CRLF, [PartBegin], HeaderFieldStart, LinesBytes(p.lines), x, HeaderFieldStart);
    LeadsJoin(b, AlmostEnd, CRLF + LinesBytes(p.lines), [PartBegin] + x, HeaderFieldStart, CRLF, [], PartDataStart);
    assert [PartBegin] + x + [] == [PartBegin] + x;
    LeadsJoin(b, AlmostEnd, CRLF + LinesBytes(p.lines) + CRLF, [PartBegin] + x, PartDataStart,
              p.data + Delimiter(b), [HeadersComplete] + DataOf(p.data) + [PartEnd], AlmostEnd);
  }

  function PartsBytes(b: Bytes, parts: seq<Part>): Bytes {
    if parts == [] then [] else PartBytes(b, parts[0]) + PartsBytes(b, parts[1..])
  }

  function PartsItems(parts: seq<Part>): seq<Item> {
    if parts == [] then [] else PartItems(parts[0]) + PartsItems(parts[1..])
  }

  lemma {:induction false} PartsLead(b: Bytes, parts: seq<Part>)
    requires |b| >= 1 && CR !in b && forall p :: p in parts ==> PartOk(b, p)
    ensures Leads(b, AlmostEnd, PartsBytes(b, parts), PartsItems(parts), AlmostEnd)
  {
    if parts != [] {
      assert parts[0] in parts && forall p :: p in parts[1..] ==> p in parts;
      PartLeads(b, parts[0]);
      PartsLead(b, parts[1..]);
      hide Leads, PartBytes, PartItems, PartOk;
      LeadsJoin(b, AlmostEnd, PartBytes(b, parts[0]), PartItems(parts[0]), AlmostEnd,
                PartsBytes(b, parts[1..]), PartsItems(parts[1..]), AlmostEnd);
    }
  }

  // ---- bodies

  /** The boundary, the parts, two hyphens, and anything. */
  function BodyBytes(b: Bytes, parts: seq<Part>, epilogue: Bytes): Bytes {
    b + PartsBytes(b, parts) + [HYPHEN, HYPHEN] + epilogue
  }

  lemma {:induction false} BoundaryLeads(b: Bytes, i: nat)
    requires 1 <= |b| && i <= |b|
    ensures Leads(b, StartBoundary(i), b[i..], [], StartBoundary(|b|))
    decreases |b| - i
  {
    if i < |b| {
      LeadsStep(b, StartBoundary(i), b[i]);
      BoundaryLeads(b, i + 1);
      LeadsJoin(b, StartBoundary(i), [b[i]], [], StartBoundary(i + 1), b[i + 1..], [], StartBoundary(|b|));
      assert [b[i]] + b[i + 1..] == b[i..];
      var none: seq<Item> := [];
      assert none + none == none;
    }
  }

  lemma {:induction false} EpilogueLeads(b: Bytes, s: Bytes)
    requires |b| >= 1
    ensures Leads(b, End, s, [], End)
  {
    if s != [] {
      LeadsStep(b, End, s[0]);
      EpilogueLeads(b, s[1..]);
      LeadsJoin(b, End, [s[0]], [], End, s[1..], [], End);
      assert [s[0]] + s[1..] == s;
      var none: seq<Item> := [];
      assert none + none == none;
    }
  }

  /** Every body of one or more parts is read whole, and handed over part by part as it was written. */
  lemma BodyRead(b: Bytes, parts: seq<Part>, epilogue: Bytes)
    requires |b| >= 1 && CR !in b && parts != [] && forall p :: p in parts ==> PartOk(b, p)
    ensures Leads(b, Start, BodyBytes(b, parts, epilogue), PartsItems(parts) + [BodyEnd], End)
  {
    var t, e := PartsBytes(b, parts), [HYPHEN, HYPHEN] + epilogue;
    assert CRLF <= t + e by { assert t[0] == CR && t[1] == LF; }
    hide Leads, PartsBytes, PartsItems, PartOk;
    PartsLead(b, parts);
    EndLeads(b, epilogue);
    LeadsJoin(b, AlmostEnd, t, PartsItems(parts), AlmostEnd, e, [BodyEnd], End);
    FirstLeads(b, t + e, PartsItems(parts) + [BodyEnd], End);
    Associative(b, t, e);
    Associative(b + t, [HYPHEN, HYPHEN], epilogue);
  }

  lemma EndLeads(b: Bytes, epilogue: Bytes)
    requires |b| >= 1
    ensures Leads(b, AlmostEnd, [HYPHEN, HYPHEN] + epilogue, [BodyEnd], End)
  {
    LeadsTwo(b, AlmostEnd, HYPHEN, HYPHEN);
    EpilogueLeads(b, epilogue);
    hide Leads;
    assert [] + [BodyEnd] == [BodyEnd] && [BodyEnd] + [] == [BodyEnd];
    LeadsJoin(b, AlmostEnd, [HYPHEN, HYPHEN], [BodyEnd], End, epilogue, [], End);
  }

  /** The first boundary is followed as the later ones are, by a line end. */
  lemma FirstLeads(b: Bytes, s: Bytes, items: seq<Item>, end: PState)
    requires |b| >= 1 && CRLF <= s && Leads(b, AlmostEnd, s, items, end)
    ensures Leads(b, Start, b + s, items, end)
  {
    BoundaryLeads(b, 0);
    assert b[0..] == b;
    assert Run(b, Start, b) == Run(b, StartBoundary(0), b) && Colons(b, Start, b);
    SameTail(b, s);
    assert Leads(b, Start, b, [], StartBoundary(|b|)) && Leads(b, StartBoundary(|b|), s, items, end);
    hide Leads;
    LeadsJoin(b, Start, b, [], StartBoundary(|b|), s, items, end);
    assert [] + items == items;
  }

  lemma SameTail(b: Bytes, s: Bytes)
    requires |b| >= 1 && CRLF <= s
    ensures Run(b, StartBoundary(|b|), s) == Run(b, AlmostEnd, s)
    ensures Colons(b, AlmostEnd, s) ==> Colons(b, StartBoundary(|b|), s)
  {
    assert s[0] == CR && s[1..][0] == LF;
    assert Step(b, StartBoundary(|b|), CR) == Ok(StartBoundary(|b| + 1), []);
    assert Step(b, AlmostEnd, CR) == Ok(PartDataEnd, []);
    assert Step(b, StartBoundary(|b| + 1), LF) == Step(b, PartDataEnd, LF) == Ok(HeaderFieldStart, [PartBegin]);
    RunStep(b, StartBoundary(|b| + 1), s[1..]);
    RunStep(b, PartDataEnd, s[1..]);
    assert Colons(b, AlmostEnd, s) ==> Colons(b, PartDataEnd, s[1..]);
    assert Colons(b, PartDataEnd, s[1..]) == Colons(b, HeaderFieldStart, s[1..][1..]) == Colons(b, StartBoundary(|b| + 1), s[1..]);
  }

  // ---- refusals

  /** The bytes that may come next in a body, in each state of the parser. */
  predicate MayFollow(b: Bytes, st: PState, c: Byte)
    requires |b| >= 1 && Fits(b, st)
  {
    match st
    case Start => c == b[0]
    case StartBoundary(i) => c == (b + [13, 10])[i]
    case HeaderFieldStart => LetterOrHyphen(c) || c == 58 || c == 13
    case HeaderField => LetterOrHyphen(c) || c == 58 || c == 13
    case HeadersAlmostDone => c == 10
    case HeaderValueAlmostDone => c == 10
    case PartDataEnd => c == 10
    case AlmostEnd => c == 45 || c == 13
    case FinalHyphen => c == 45
    case _ => true
  }

  /** A byte is refused at its place exactly when it may not come there, whatever follows. */
  lemma Refused(b: Bytes, st: PState, c: Byte, t: Bytes)
    requires |b| >= 1 && Fits(b, st)
    ensures Run(b, st, [c] + t).used == 0 <==> !MayFollow(b, st, c)
  {
    assert ([c] + t)[0] == c;
  }

  /** In a header name: after any letters and hyphens, every byte but those, a colon and CR stops the parser there. */
  lemma NameStops(b: Bytes, name: Bytes, c: Byte, t: Bytes)
    requires |b| >= 1 && (forall i :: 0 <= i < |name| ==> LetterOrHyphen(name[i]))
    ensures !LetterOrHyphen(c) && c != 58 && c != 13 ==> Run(b, HeaderFieldStart, name + ([c] + t)).used == |name|
    ensures LetterOrHyphen(c) || c == 58 || c == 13 ==> Run(b, HeaderFieldStart, name + ([c] + t)).used > |name|
  {
    NameRead(b, HeaderFieldStart, name);
    hide Run, LetterOrHyphen;
    RunSplits(b, HeaderFieldStart, name, [c] + t);
    Refused(b, Run(b, HeaderFieldStart, name).st, c, t);
  }

  lemma {:induction false} NameRead(b: Bytes, st: PState, name: Bytes)
    requires |b| >= 1 && InName(st) && (forall i :: 0 <= i < |name| ==> LetterOrHyphen(name[i]))
    ensures var r := Run(b, st, name); r.used == |name| && InName(r.st)
    decreases |name|
  {
    if name != [] { NameRead(b, HeaderField, name[1..]); }
  }
}
