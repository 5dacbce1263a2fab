/**
  What parse_multipart of http/http_content.cpp:228-248 makes of a form that any sender has written.
  */
module FormRead {

  import opened Basics
  import opened MultipartSpec
  import opened MultipartCuts
  import opened MultipartParts
  import opened MultipartGrammar
  import opened FormText
  import opened FormSpec

  function Fresh(mp: map<Bytes, FormData>): User { User(mp, [], [], [], [], [], []) }

  /** parse_multipart: whether all of s was taken, and the parts added to mp. */
  function Parsed(boundary: Bytes, s: Bytes, mp: map<Bytes, FormData>): (bool, map<Bytes, FormData>) {
    var b := [HYPHEN, HYPHEN] + boundary;
    (Run(b, Start, s).used == |s|, OnItems(Fresh(mp), Handed(b, Start, s, [])).mp)
  }

  // ---- header lines

  /** A header line: the header before it is dealt with, and this one is kept. */
  function AfterLine(u: User, l: HeaderLine): User {
    var w := HandleHeader(u);
    w.(field := w.field + l.name, val := w.val + l.value)
  }

  lemma OnLine(u: User, l: HeaderLine)
    requires u.run == []
    ensures OnItems(u, LineItems(l)) == AfterLine(u, l) && AfterLine(u, l).run == []
  {
    hide HandleHeader, OnItem;
    OnItemsSplits(u, FieldsOf(l.name) + [NameEnd], ValuesOf(l.value));
    OnItemsSplits(u, FieldsOf(l.name), [NameEnd]);
    OnFields(u, l.name);
    assert [] + l.name == l.name;
    RunKept(u, l.name);
    OnValues(OnItems(u, FieldsOf(l.name) + [NameEnd]), l.value);
  }

  lemma RunKept(u: User, n: Bytes)
    requires u.run == []
    ensures OnItems(u.(run := n), [NameEnd]) ==
      var w := HandleHeader(u); w.(field := w.field + n)
    ensures HandleHeader(u).run == []
  {
    var x := u.(run := n);
    ParamsKeep(x, u, Split(u.val, SEMICOLON));
    assert OnItems(x, [NameEnd]) == OnItem(x, NameEnd) by { assert [NameEnd][1..] == []; }
  }

  /** The parameters do not depend on the name that is being collected. */
  lemma {:induction false} ParamsKeep(x: User, u: User, pieces: seq<Bytes>)
    requires x == u.(run := x.run)
    ensures Params(x, pieces) == Params(u, pieces).(run := x.run) && Params(u, pieces).run == u.run
    decreases |pieces|
  {
    if pieces != [] {
      ParamsKeep(Param(x, pieces[0]), Param(u, pieces[0]), pieces[1..]);
    }
  }

  /** A header of its own. */
  function Alone(u: User, l: HeaderLine): User { HandleHeader(u.(field := l.name, val := l.value)) }

  function AllAlone(u: User, lines: seq<HeaderLine>): User
    decreases |lines|
  {
    if lines == [] then u else AllAlone(Alone(u, lines[0]), lines[1..])
  }

  predicate Full(l: HeaderLine) { l.name != [] && l.value != [] }

  /** Lines whose names and values are not empty are dealt with one by one. */
  lemma {:induction false} OnLines(u: User, lines: seq<HeaderLine>)
    requires u.run == [] && (forall l :: l in lines ==> Full(l)) && (u.field == [] <==> u.val == [])
    ensures HandleHeader(OnItems(u, LinesItems(lines))) == AllAlone(HandleHeader(u), lines)
    decreases |lines|
  {
    if lines != [] {
      var l, rest := lines[0], lines[1..];
      assert l in lines && forall k :: k in rest ==> k in lines;
      OnLine(u, l);
      Cleared(u);
      var w := HandleHeader(u);
      assert [] + l.name == l.name && [] + l.value == l.value;
      hide HandleHeader, LineItems, OnItem;
      OnItemsSplits(u, LineItems(l), LinesItems(rest));
      OnLines(AfterLine(u, l), rest);
      assert HandleHeader(AfterLine(u, l)) == Alone(w, l);
    }
  }

  lemma Cleared(u: User)
    requires u.field == [] <==> u.val == []
    ensures HandleHeader(u).field == [] && HandleHeader(u).val == []
  {
  }

  /**
    A line with an empty value is not dealt with: its name is put before that of the next line, so that
    the next header is not recognised.
    */
  lemma EmptyValueSticks(u: User, name: Bytes, l: HeaderLine)
    requires u.field == [] && u.val == [] && u.run == [] && Full(l) && name != []
    ensures AfterLine(AfterLine(u, HeaderLine(name, 0, [])), l) == u.(field := name + l.name, val := l.value)
  {
    assert [] + name == name && [] + l.value == l.value;
  }

  // ---- parts

  predicate Clean(u: User) {
    u.field == [] && u.val == [] && u.data == [] && u.name == [] && u.filename == [] && u.run == []
  }

  lemma OnPart(s: Bytes, v: User)
    ensures var w := HandleHeader(v);
      OnItems(v, [HeadersComplete] + DataOf(s) + [PartEnd]) == HandleData(w.(data := w.data + s))
  {
    hide HandleHeader, HandleData;
    OnItemsSplits(v, [HeadersComplete] + DataOf(s), [PartEnd]);
    OnItemsSplits(v, [HeadersComplete], DataOf(s));
    OnOne(v, HeadersComplete);
    var w := HandleHeader(v);
    OnData(w, s);
    OnOne(w.(data := w.data + s), PartEnd);
  }

  lemma OnOne(u: User, item: Item)
    ensures OnItems(u, [item]) == OnItem(u, item)
  {
    assert [item][1..] == [];
  }

  lemma OnWholePart(u: User, p: Part)
    requires Clean(u) && forall l :: l in p.lines ==> Full(l)
    ensures OnItems(u, PartItems(p)) == var w := AllAlone(u, p.lines); HandleData(w.(data := w.data + p.data))
  {
    hide HandleData, OnItem, LinesItems, DataOf;
    var x, y := LinesItems(p.lines), [HeadersComplete] + DataOf(p.data) + [PartEnd];
    OnItemsSplits(u, [PartBegin] + x, y);
    OnItemsSplits(u, [PartBegin], x);
    OnBegin(u);
    OnLines(u, p.lines);
    OnPart(p.data, OnItems(u, x));
    assert HandleHeader(u) == u;
  }

  lemma OnBegin(u: User)
    ensures OnItems(u, [PartBegin]) == u
  {
    OnOne(u, PartBegin);
  }

  /** A part of a form: its Content-Disposition line, and other header lines before and after. */
  datatype FormPart = FormPart(before: seq<HeaderLine>, field: Bytes, spaces: nat, kind: Bytes, ps: seq<Parameter>,
                               after: seq<HeaderLine>, data: Bytes)

  function Line(p: FormPart): HeaderLine { HeaderLine(p.field, p.spaces, p.kind + ParametersBytes(p.ps)) }

  function PartOf(p: FormPart): Part { Part(p.before + [Line(p)] + p.after, p.data) }

  predicate OtherLine(l: HeaderLine) {
    LineOk(l) && Full(l) && !SameName(l.name, Ascii("Content-Disposition"))
  }

  ghost predicate FormPartOk(b: Bytes, p: FormPart) {
    && (forall l :: l in p.before ==> OtherLine(l)) && (forall l :: l in p.after ==> OtherLine(l))
    && SameName(p.field, Ascii("Content-Disposition")) && Plain(p.kind) && p.kind != [] && p.kind[0] != SPACE
    && (forall x :: x in p.ps ==> ParameterOk(x))
    && forall q: nat :: !OccursAt(Delimiter(b), p.data, q)
  }

  function NameIn(p: FormPart): Bytes { ValueOf(p.ps, Ascii("name"), []) }
  function FileIn(p: FormPart): Bytes { ValueOf(p.ps, Ascii("filename"), []) }

  /** The entry that a part makes: none without a name. */
  function Entered(mp: map<Bytes, FormData>, p: FormPart): map<Bytes, FormData> {
    if NameIn(p) == [] then mp else mp[NameIn(p) := FormData(FileIn(p), p.data)]
  }

  lemma LettersSame(a: Bytes)
    requires SameName(a, Ascii("Content-Disposition"))
    ensures |a| == 19 && forall i :: 0 <= i < |a| ==> LetterOrHyphen(a[i])
  {
    var d := Ascii("Content-Disposition");
    assert |d| == 19 && forall i :: 0 <= i < |d| ==> LetterOrHyphen(d[i]);
    forall i | 0 <= i < |a| ensures LetterOrHyphen(a[i]) { assert SameLetter(a[i], d[i]); }
  }

  lemma NoNul(name: Bytes)
    requires forall i :: 0 <= i < |name| ==> LetterOrHyphen(name[i])
    ensures NUL !in name
  {
  }

  lemma FormLine(p: FormPart, b: Bytes)
    requires FormPartOk(b, p)
    ensures LineOk(Line(p)) && Full(Line(p))
  {
    LettersSame(p.field);
    ParametersPlain(p.ps);
    hide ParametersBytes, ParameterOk, LetterOrHyphen, SameName;
    assert (p.kind + ParametersBytes(p.ps))[0] == p.kind[0];
  }

  lemma {:induction false} OthersIgnored(u: User, lines: seq<HeaderLine>)
    requires u.field == [] && u.val == [] && forall l :: l in lines ==> OtherLine(l)
    ensures AllAlone(u, lines) == u
    decreases |lines|
  {
    if lines != [] {
      var l := lines[0];
      assert l in lines && forall k :: k in lines[1..] ==> k in lines;
      NoNul(l.name);
      HeaderRead(u.(field := l.name, val := l.value), [], []);
      hide HandleHeader, SameName, LineOk, Ascii;
      assert u.(field := l.name, val := l.value).(field := [], val := []) == u;
      OthersIgnored(u, lines[1..]);
    }
  }

  lemma {:induction false} AllAloneSplits(u: User, x: seq<HeaderLine>, y: seq<HeaderLine>)
    ensures AllAlone(u, x + y) == AllAlone(AllAlone(u, x), y)
    decreases |x|
  {
    if x == [] {
      assert x + y == y;
    } else {
      assert (x + y)[1..] == x[1..] + y;
      AllAloneSplits(Alone(u, x[0]), x[1..], y);
    }
  }

  /** The headers of a form part leave its name and file name. */
  lemma FormLinesRead(b: Bytes, p: FormPart, u: User)
    requires FormPartOk(b, p) && Clean(u)
    ensures AllAlone(u, PartOf(p).lines) == u.(name := NameIn(p), filename := FileIn(p))
  {
    var l := Line(p);
    FormLine(p, b);
    NoNul(p.field);
    hide HandleHeader, SameName, LineOk, Ascii, ParametersBytes, ParameterOk, OtherLine;
    AllAloneSplits(u, p.before + [l], p.after);
    AllAloneSplits(u, p.before, [l]);
    OthersIgnored(u, p.before);
    assert AllAlone(u, [l]) == Alone(u, l) by { assert [l][1..] == []; }
    HeaderRead(u.(field := l.name, val := l.value), p.kind, p.ps);
    OthersIgnored(u.(name := NameIn(p), filename := FileIn(p)), p.after);
  }

  lemma FormPartRead(b: Bytes, p: FormPart, u: User)
    requires FormPartOk(b, p) && Clean(u)
    ensures PartOk(b, PartOf(p)) && OnItems(u, PartItems(PartOf(p))) == u.(mp := Entered(u.mp, p))
  {
    FormLine(p, b);
    FormLinesRead(b, p, u);
    hide Line, SameName, Ascii, ParametersBytes, ParameterOk, AllAlone, LineOk;
    OnWholePart(u, PartOf(p));
    assert [] + p.data == p.data;
  }

  // ---- whole forms

  function PartsOf(ps: seq<FormPart>): (r: seq<Part>)
    ensures |r| == |ps|
  {
    if ps == [] then [] else [PartOf(ps[0])] + PartsOf(ps[1..])
  }

  function AllEntered(mp: map<Bytes, FormData>, ps: seq<FormPart>): map<Bytes, FormData>
    decreases |ps|
  {
    if ps == [] then mp else AllEntered(Entered(mp, ps[0]), ps[1..])
  }

  lemma {:induction false} FormPartsRead(b: Bytes, ps: seq<FormPart>, u: User)
    requires Clean(u) && forall p :: p in ps ==> FormPartOk(b, p)
    ensures forall x :: x in PartsOf(ps) ==> PartOk(b, x)
    ensures OnItems(u, PartsItems(PartsOf(ps))) == u.(mp := AllEntered(u.mp, ps))
    decreases |ps|
  {
    if ps != [] {
      var p, rest := ps[0], ps[1..];
      assert p in ps && forall q :: q in rest ==> q in ps;
      FormPartRead(b, p, u);
      hide FormPartOk, PartOk, PartItems, PartOf, Entered, OnItem;
      var v := u.(mp := Entered(u.mp, p));
      FormPartsRead(b, rest, v);
      assert PartsOf(ps)[1..] == PartsOf(rest);
      OnItemsSplits(u, PartItems(PartOf(p)), PartsItems(PartsOf(rest)));
    }
  }

  /**
    parse_multipart takes all of a form and enters its parts in their order: whatever the case of the
    header names, the other headers, the quotes and the spaces, and whatever follows the last boundary.
    */
  lemma FormReads(boundary: Bytes, ps: seq<FormPart>, epilogue: Bytes, mp: map<Bytes, FormData>)
    requires CR !in boundary && ps != [] && forall p :: p in ps ==> FormPartOk([HYPHEN, HYPHEN] + boundary, p)
    ensures Parsed(boundary, BodyBytes([HYPHEN, HYPHEN] + boundary, PartsOf(ps), epilogue), mp) == (true, AllEntered(mp, ps))
  {
    var b := [HYPHEN, HYPHEN] + boundary;
    var s, u := BodyBytes(b, PartsOf(ps), epilogue), Fresh(mp);
    FormPartsRead(b, ps, u);
    assert PartsOf(ps) != [];
    hide FormPartOk, PartOk, PartsItems, PartsOf, Entered, AllEntered, BodyBytes, OnItems, Handed, Run, Colons;
    BodyRead(b, PartsOf(ps), epilogue);
    var items := PartsItems(PartsOf(ps)) + [BodyEnd];
    assert Run(b, Start, s) == Outcome(items, End, |s|) && Colons(b, Start, s);
    hide Leads;
    HandedAlike(b, Start, s, []);
    NoNames(items);
    OnItemsSplits(u, PartsItems(PartsOf(ps)), [BodyEnd]);
    OnOne(u.(mp := AllEntered(mp, ps)), BodyEnd);
  }
}
