/**
  A printed form, read back (http/http_content.cpp:70-122 against :145-248).
  */
module FormRound {

  import opened Basics
  import opened MultipartSpec
  import opened MultipartParts
  import opened MultipartGrammar
  import opened FormText
  import opened FormSpec
  import opened FormRead

  // ---- one part

  /** A part that the printed text can carry. */
  predicate Printable(name: Bytes, f: FormData) {
    1 <= |name| <= 246 && Plain(name) &&
    |Base(f.filename)| <= 242 && Plain(f.filename) &&
    (f.filename != [] ==> f.content != [])
  }

  /** The media types that a header can carry, as those of the table in http/httpdef.h. */
  predicate TypesOk(types: map<Bytes, Bytes>) {
    forall k :: k in types && types[k] != [] ==> CR !in types[k] && types[k][0] != SPACE
  }

  function PrintedParameters(name: Bytes, f: FormData): seq<Parameter> {
    [Parameter(1, Ascii("name"), Double, name, 0)] +
    if f.filename == [] then [] else [Parameter(1, Ascii("filename"), Double, Base(f.filename), 0)]
  }

  function TypeLines(types: map<Bytes, Bytes>, f: FormData): seq<HeaderLine> {
    if f.filename == [] || TypeOf(types, f.filename) == [] then []
    else [HeaderLine(Ascii("Content-Type"), 1, TypeOf(types, f.filename))]
  }

  /** What dump_part prints, as a part of a form. */
  function Printed(types: map<Bytes, Bytes>, name: Bytes, f: FormData): FormPart {
    FormPart([], Ascii("Content-Disposition"), 1, Ascii("form-data"), PrintedParameters(name, f), TypeLines(types, f), f.content)
  }

  lemma Literals()
    ensures Plain(Ascii("name")) && Plain(Ascii("filename"))
    ensures |Ascii("name")| == 4 && |Ascii("filename")| == 8
    ensures Ascii("name")[0] != SPACE && Ascii("filename")[0] != SPACE
  {
    KeysDiffer();
    hide Ascii;
  }

  lemma KindLiteral()
    ensures Plain(Ascii("form-data")) && |Ascii("form-data")| == 9 && Ascii("form-data")[0] != SPACE
  {
    assert Ascii("form-data") == [102, 111, 114, 109, 45, 100, 97, 116, 97];
    hide Ascii;
  }

  lemma TypeLiteral()
    ensures |Ascii("Content-Type")| == 12 && forall i :: 0 <= i < |Ascii("Content-Type")| ==> LetterOrHyphen(Ascii("Content-Type")[i])
  {
    assert Ascii("Content-Type") == [67, 111, 110, 116, 101, 110, 116, 45, 84, 121, 112, 101];
    hide Ascii;
  }

  lemma {:induction false} BasePart(s: Bytes)
    ensures forall c :: c in Base(s) ==> c in s
    decreases |s|
  {
    if SLASH in s && s[|s| - 1] != SLASH { BasePart(s[..|s| - 1]); }
  }

  lemma PrintedOk(b: Bytes, types: map<Bytes, Bytes>, name: Bytes, f: FormData)
    requires TypesOk(types) && Printable(name, f) && forall p: nat :: !OccursAt(Delimiter(b), f.content, p)
    ensures FormPartOk(b, Printed(types, name, f))
    ensures NameIn(Printed(types, name, f)) == name && FileIn(Printed(types, name, f)) == Base(f.filename)
  {
    hide Ascii, TypeOf, LetterOrHyphen, SameName, NameIn, FileIn;
    Literals();
    KindLiteral();
    TypeLiteral();
    BasePart(f.filename);
    SelfNamed();
    PrintedNames(types, name, f);
    assert forall l :: l in TypeLines(types, f) ==> OtherLine(l) by { TypeBytes(types, f.filename); }
  }

  lemma PrintedNames(types: map<Bytes, Bytes>, name: Bytes, f: FormData)
    ensures NameIn(Printed(types, name, f)) == name && FileIn(Printed(types, name, f)) == Base(f.filename)
  {
    KeysDiffer();
    hide Ascii;
    var ps, k, m := PrintedParameters(name, f), Ascii("name"), Ascii("filename");
    var none: Bytes := [];
    if f.filename == [] {
      assert ps[1..] == [];
      assert ValueOf(ps, k, none) == ValueOf([], k, name) && ValueOf(ps, m, none) == ValueOf([], m, none);
    } else {
      assert ps[1..] == [ps[1]] && [ps[1]][1..] == [];
      assert ValueOf(ps, k, none) == ValueOf([ps[1]], k, name) == ValueOf([], k, name);
      assert ValueOf(ps, m, none) == ValueOf([ps[1]], m, none) == ValueOf([], m, Base(f.filename));
    }
  }

  lemma SelfNamed()
    ensures SameName(Ascii("Content-Disposition"), Ascii("Content-Disposition"))
    ensures !SameName(Ascii("Content-Type"), Ascii("Content-Disposition"))
  {
    assert |Ascii("Content-Type")| == 12 && |Ascii("Content-Disposition")| == 19;
  }

  lemma TypeBytes(types: map<Bytes, Bytes>, filename: Bytes)
    requires TypesOk(types)
    ensures TypeOf(types, filename) != [] ==> CR !in TypeOf(types, filename) && TypeOf(types, filename)[0] != SPACE
  {
  }

  /** The printed lines are the lines of the part. */
  lemma PrintedLines(types: map<Bytes, Bytes>, name: Bytes, f: FormData)
    requires Printable(name, f)
    ensures Headers(types, name, f) == LinesBytes(PartOf(Printed(types, name, f)).lines)
  {
    DispositionPrinted(name, f);
    var l, t := HeaderLine(Ascii("Content-Disposition"), 1, Disposition(name, f)), TypeLines(types, f);
    LinePrinted("Content-Disposition", Disposition(name, f));
    hide Disposition, TypeOf, Ascii, LineBytes, Header, ParametersBytes;
    var lines := PartOf(Printed(types, name, f)).lines;
    assert lines == [l] + t;
    assert lines[1..] == t;
    if t == [] {
      assert LinesBytes(t) == [];
    } else {
      LinePrinted("Content-Type", TypeOf(types, f.filename));
      assert t[1..] == [];
      assert LinesBytes(t) == LineBytes(t[0]) + [] == LineBytes(t[0]);
    }
  }

  lemma LinePrinted(name: string, v: Bytes)
    ensures LineBytes(HeaderLine(Ascii(name), 1, v)) == Header(name, v)
  {
    assert Spaces(1) == [SPACE];
    hide Ascii, Spaces;
    assert [COLON] + [SPACE] == [COLON, SPACE];
    Associative(Ascii(name), [COLON], [SPACE]);
  }

  lemma DispositionPrinted(name: Bytes, f: FormData)
    requires Printable(name, f)
    ensures Disposition(name, f) == Ascii("form-data") + ParametersBytes(PrintedParameters(name, f))
  {
    CStrAll(name);
    CStrAll(f.filename);
    ParameterPrinted("name", name);
    ParameterPrinted("filename", Base(f.filename));
    hide Ascii, Quoted, ParameterBytes;
    var ps := PrintedParameters(name, f);
    var x, y := Quoted("name", name), Quoted("filename", Base(f.filename));
    assert |x| == |name| + 9 && |y| == |Base(f.filename)| + 13;
    if f.filename == [] {
      assert ps[1..] == [] && ParametersBytes(ps) == x + [] == x;
    } else {
      assert ps[1..] == [ps[1]] && [ps[1]][1..] == [];
      assert ParametersBytes([ps[1]]) == y + [] == y;
      assert ParametersBytes(ps) == x + y;
    }
  }

  lemma ParameterPrinted(key: string, value: Bytes)
    ensures Quoted(key, value) == [SEMICOLON] + ParameterBytes(Parameter(1, Ascii(key), Double, value, 0))
    ensures |Quoted(key, value)| == |key| + |value| + 5
  {
    assert Spaces(1) == [SPACE] && Spaces(0) == [];
    hide Ascii, Spaces;
    var k := Ascii(key);
    assert [SPACE] + (k + [EQUALS] + ([34] + value + [34])) + [] == [SPACE] + k + [EQUALS, QUOTE] + value + [QUOTE];
  }

  // ---- the whole text

  /** A form whose parts the text can carry, between delimiters of the boundary b. */
  ghost predicate FormOk(b: Bytes, form: map<Bytes, FormData>) {
    forall k :: k in form ==> Printable(k, form[k]) && forall p: nat :: !OccursAt(Delimiter(b), form[k].content, p)
  }

  /** The text that dump_multipart prints for a form whose parts come in this order. */
  function DumpText(types: map<Bytes, Bytes>, b: Bytes, form: map<Bytes, FormData>, order: seq<Bytes>): Bytes
    requires forall k :: k in order ==> k in form
  {
    if order == [] then []
    else PartsText(types, b, form, order) + b + [HYPHEN, HYPHEN] + CRLF
  }

  function PrintedParts(types: map<Bytes, Bytes>, form: map<Bytes, FormData>, order: seq<Bytes>): (r: seq<FormPart>)
    requires forall k :: k in order ==> k in form
    ensures |r| == |order|
  {
    if order == [] then [] else [Printed(types, order[0], form[order[0]])] + PrintedParts(types, form, order[1..])
  }

  lemma {:induction false} DumpIs(types: map<Bytes, Bytes>, b: Bytes, form: map<Bytes, FormData>, order: seq<Bytes>)
    requires (forall k :: k in order ==> k in form) && FormOk(b, form)
    ensures PartsText(types, b, form, order) + b == b + PartsBytes(b, PartsOf(PrintedParts(types, form, order)))
    decreases |order|
  {
    if order == [] {
      assert [] + b == b && b + [] == b;
    } else {
      var k, f := order[0], form[order[0]];
      PrintedLines(types, k, f);
      hide FormOk, Headers, Printed, LinesBytes;
      DumpIs(types, b, form, order[1..]);
      var ps := PrintedParts(types, form, order);
      assert ps[1..] == PrintedParts(types, form, order[1..]) && PartsOf(ps)[1..] == PartsOf(ps[1..]);
      PartRegroup(b, Headers(types, k, f), f.content, PartsText(types, b, form, order[1..]), PartsBytes(b, PartsOf(ps[1..])));
      assert PartOf(ps[0]).data == f.content by { DataIs(types, k, f); }
    }
  }

  lemma DataIs(types: map<Bytes, Bytes>, name: Bytes, f: FormData)
    ensures PartOf(Printed(types, name, f)).data == f.content
  {
  }

  lemma PartRegroup(b: Bytes, h: Bytes, c: Bytes, rest: Bytes, after: Bytes)
    requires rest + b == b + after
    ensures b + CRLF + h + CRLF + c + CRLF + rest + b == b + (CRLF + h + CRLF + (c + (CRLF + b)) + after)
  {
    var x := b + CRLF + h + CRLF + c + CRLF;
    Associative(x, rest, b);
    Associative(x, b, after);
    assert x + b == b + (CRLF + h + CRLF + (c + (CRLF + b)));
  }

  /** The map after the parts of the order have been added one by one. */
  function WithAll(mp: map<Bytes, FormData>, form: map<Bytes, FormData>, order: seq<Bytes>): map<Bytes, FormData>
    requires forall k :: k in order ==> k in form
    decreases |order|
  {
    if order == [] then mp else WithAll(mp[order[0] := form[order[0]]], form, order[1..])
  }

  lemma {:induction false} WithAllHas(mp: map<Bytes, FormData>, form: map<Bytes, FormData>, order: seq<Bytes>)
    requires forall k :: k in order ==> k in form
    ensures forall k :: k in WithAll(mp, form, order) <==> k in mp || k in order
    ensures forall k :: k in order ==> WithAll(mp, form, order)[k] == form[k]
    ensures forall k :: k in mp && k !in order ==> WithAll(mp, form, order)[k] == mp[k]
    decreases |order|
  {
    if order != [] {
      WithAllHas(mp[order[0] := form[order[0]]], form, order[1..]);
      assert forall k :: k in order <==> k == order[0] || k in order[1..];
    }
  }

  /** The form with the file names cut down to their last component, which is all that is printed of them. */
  function Based(form: map<Bytes, FormData>): map<Bytes, FormData> {
    map k | k in form :: FormData(Base(form[k].filename), form[k].content)
  }

  lemma {:induction false} PrintedEntered(b: Bytes, types: map<Bytes, Bytes>, form: map<Bytes, FormData>, order: seq<Bytes>, mp: map<Bytes, FormData>)
    requires (forall k :: k in order ==> k in form) && FormOk(b, form) && TypesOk(types)
    ensures forall p :: p in PrintedParts(types, form, order) ==> FormPartOk(b, p)
    ensures AllEntered(mp, PrintedParts(types, form, order)) == WithAll(mp, Based(form), order)
    decreases |order|
  {
    if order != [] {
      var k := order[0];
      PrintedOk(b, types, k, form[k]);
      assert Printed(types, k, form[k]).data == form[k].content && k != [];
      hide FormOk, TypesOk, Printed, FormPartOk;
      PrintedEntered(b, types, form, order[1..], mp[k := Based(form)[k]]);
      var ps := PrintedParts(types, form, order);
      assert ps[1..] == PrintedParts(types, form, order[1..]);
    }
  }

  /** parse_multipart(dump_multipart(form)) is the form but for directories in file names, in whatever order its parts are printed. */
  lemma RoundTrip(types: map<Bytes, Bytes>, boundary: Bytes, form: map<Bytes, FormData>, order: seq<Bytes>)
    requires CR !in boundary && TypesOk(types) && FormOk([HYPHEN, HYPHEN] + boundary, form)
    requires forall k :: k in order <==> k in form
    ensures Parsed(boundary, DumpText(types, [HYPHEN, HYPHEN] + boundary, form, order), map[]) == (true, Based(form))
    ensures (forall k :: k in form ==> SLASH !in form[k].filename) ==> Based(form) == form
  {
    var b := [HYPHEN, HYPHEN] + boundary;
    hide FormOk, TypesOk, Parsed, PartsText, AllEntered, PartsBytes, FormPartOk, Printed, WithAll;
    BasedSame(form);
    AllBased(form, order);
    if order == [] {
      assert Based(form) == map[];
      NothingParsed(boundary);
    } else {
      hide Based;
      PrintedEntered(b, types, form, order, map[]);
      DumpIs(types, b, form, order);
      FormReads(boundary, PrintedParts(types, form, order), CRLF, map[]);
    }
  }

  lemma AllBased(form: map<Bytes, FormData>, order: seq<Bytes>)
    requires forall k :: k in order <==> k in form
    ensures WithAll(map[], Based(form), order) == Based(form)
  {
    WithAllHas(map[], Based(form), order);
    hide WithAll;
  }

  lemma BasedSame(form: map<Bytes, FormData>)
    ensures (forall k :: k in form ==> SLASH !in form[k].filename) ==> Based(form) == form
  {
  }

  lemma NothingParsed(boundary: Bytes)
    ensures Parsed(boundary, [], map[]) == (true, map[])
  {
    assert FieldsOf([]) == [];
  }
}
