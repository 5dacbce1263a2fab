/**
  The string helpers of cpputil/hstring.cpp that the part-header parser uses, and the text that
  dump_multipart prints (http/http_content.cpp:70-122).
  */
module FormText {

  import opened Basics
  import opened MultipartSpec

  const NUL: Byte := 0
  const SEMICOLON: Byte := 59
  const EQUALS: Byte := 61
  const QUOTE: Byte := 34
  const APOSTROPHE: Byte := 39
  const SLASH: Byte := 47
  const DOT: Byte := 46

  /** The bytes of a literal. */
  function Ascii(s: string): (r: Bytes)
    ensures |r| == |s|
  {
    seq(|s|, i requires 0 <= i < |s| => s[i] as int % 256)
  }

  /** What a C function sees of a string: the bytes before the first NUL. */
  function CStr(s: Bytes): Bytes {
    if s == [] || s[0] == NUL then [] else [s[0]] + CStr(s[1..])
  }

  /** The pieces between the delimiters; there is always one. */
  function Pieces(s: Bytes, d: Byte): (r: seq<Bytes>)
    ensures |r| >= 1
  {
    if s == [] then [[]]
    else
      var r := Pieces(s[1..], d);
      if s[0] == d then [[]] + r else [[s[0]] + r[0]] + r[1..]
  }

  function TrimLeft(s: Bytes): Bytes {
    if s != [] && s[0] == SPACE then TrimLeft(s[1..]) else s
  }

  function TrimRight(s: Bytes): Bytes {
    if s != [] && s[|s| - 1] == SPACE then TrimRight(s[..|s| - 1]) else s
  }

  /** trim(str, " "). */
  function Trim(s: Bytes): Bytes { TrimRight(TrimLeft(s)) }

  /** trim_pairs(str, "\"\"\'\'"): a lone quote is its own pair. */
  function TrimPairs(s: Bytes): Bytes {
    if s != [] && s[0] == s[|s| - 1] && (s[0] == QUOTE || s[0] == APOSTROPHE)
    then (if |s| == 1 then [] else s[1..|s| - 1])
    else s
  }

  datatype FormData = FormData(filename: Bytes, content: Bytes)

  /** snprintf into the 256 bytes of c_str. */
  function Cut(s: Bytes): Bytes { if |s| <= 255 then s else s[..255] }

  /** hv_basename. */
  function Base(s: Bytes): Bytes {
    if SLASH !in s then s
    else if s[|s| - 1] == SLASH then []
    else Base(s[..|s| - 1]) + [s[|s| - 1]]
  }

  /** What follows the last dot, if there is one. */
  function Suffix(s: Bytes): (r: (bool, Bytes)) {
    if s == [] then (false, [])
    else if s[|s| - 1] == DOT then (true, [])
    else var r := Suffix(s[..|s| - 1]); (r.0, r.1 + [s[|s| - 1]])
  }

  /** http_content_type_str_by_suffix, over a table of suffixes. */
  function TypeOf(types: map<Bytes, Bytes>, filename: Bytes): Bytes {
    var r := Suffix(CStr(filename));
    if r.0 && r.1 != [] && r.1 in types then types[r.1] else []
  }

  function Quoted(key: string, value: Bytes): Bytes {
    [SEMICOLON, SPACE] + Ascii(key) + [EQUALS, QUOTE] + value + [QUOTE]
  }

  /** The value of the Content-Disposition header. */
  function Disposition(name: Bytes, f: FormData): Bytes {
    Ascii("form-data") + Cut(Quoted("name", CStr(name))) +
    if f.filename == [] then [] else Cut(Quoted("filename", Base(CStr(f.filename))))
  }

  function Header(name: string, value: Bytes): Bytes {
    Ascii(name) + [COLON, SPACE] + value + CRLF
  }

  /** The header lines of a part. */
  function Headers(types: map<Bytes, Bytes>, name: Bytes, f: FormData): Bytes {
    Header("Content-Disposition", Disposition(name, f)) +
    if f.filename == [] || TypeOf(types, f.filename) == [] then []
    else Header("Content-Type", TypeOf(types, f.filename))
  }

  /** dump_part, for a file part whose content is not to be read from a file. */
  function PartText(types: map<Bytes, Bytes>, boundary: Bytes, name: Bytes, f: FormData): Bytes {
    boundary + CRLF + Headers(types, name, f) + CRLF + f.content + CRLF
  }

  function PartsText(types: map<Bytes, Bytes>, boundary: Bytes, form: map<Bytes, FormData>, order: seq<Bytes>): Bytes
    requires forall k :: k in order ==> k in form
  {
    if order == [] then []
    else PartText(types, boundary, order[0], form[order[0]]) + PartsText(types, boundary, form, order[1..])
  }

  // ---- lemmas about the helpers

  lemma {:induction false} CStrAll(s: Bytes)
    requires NUL !in s
    ensures CStr(s) == s
    decreases |s|
  {
    if s != [] {
      assert NUL !in s[1..];
      CStrAll(s[1..]);
    }
  }

  /** A C string ends at the first NUL. */
  lemma {:induction false} CStrEnds(s: Bytes, rest: Bytes)
    requires NUL !in s
    ensures CStr(s + [NUL] + rest) == s
    decreases |s|
  {
    if s == [] {
      assert (s + [NUL] + rest)[0] == NUL;
    } else {
      assert (s + [NUL] + rest)[1..] == s[1..] + [NUL] + rest;
      CStrEnds(s[1..], rest);
    }
  }

  lemma {:induction false} PiecesJoined(x: Bytes, d: Byte, y: Bytes)
    requires d !in x
    ensures Pieces(x + [d] + y, d) == [x] + Pieces(y, d)
    decreases |x|
  {
    var s := x + [d] + y;
    if x == [] {
      assert s[1..] == y;
    } else {
      assert s[1..] == x[1..] + [d] + y;
      PiecesJoined(x[1..], d, y);
      var r := Pieces(s[1..], d);
      assert r[0] == x[1..] && r[1..] == Pieces(y, d);
      assert [x[0]] + x[1..] == x;
    }
  }

  lemma {:induction false} PiecesWhole(x: Bytes, d: Byte)
    requires d !in x
    ensures Pieces(x, d) == [x]
    decreases |x|
  {
    if x != [] {
      PiecesWhole(x[1..], d);
      assert [x[0]] + x[1..] == x;
    }
  }

  // ---- what the printer takes of a file name

  /** The base name is what follows the last slash. */
  lemma {:induction false} BaseAfterSlash(dir: Bytes, name: Bytes)
    requires SLASH !in name
    ensures Base(dir + [SLASH] + name) == name && Base(name) == name
    decreases |name|
  {
    var s := dir + [SLASH] + name;
    assert s[|dir|] == SLASH;
    if name == [] {
      assert s[|s| - 1] == SLASH;
    } else {
      var n := |name| - 1;
      var e, c := name[..n], name[n];
      assert s[..|s| - 1] == dir + [SLASH] + e && s[|s| - 1] == c && e + [c] == name;
      assert Base(s) == Base(s[..|s| - 1]) + [c] && Base(name) == name;
      hide Base;
      BaseAfterSlash(dir, e);
    }
  }

  /** The suffix is what follows the last dot. */
  lemma {:induction false} SuffixAfterDot(stem: Bytes, ext: Bytes)
    requires DOT !in ext
    ensures Suffix(stem + [DOT] + ext) == (true, ext) && !Suffix(ext).0
    decreases |ext|
  {
    var s := stem + [DOT] + ext;
    if ext == [] {
      assert s[|s| - 1] == DOT;
    } else {
      var n := |ext| - 1;
      var e, c := ext[..n], ext[n];
      assert s[..|s| - 1] == stem + [DOT] + e && s[|s| - 1] == c && e + [c] == ext;
      SuffixStep(s);
      SuffixStep(ext);
      hide Suffix;
      SuffixAfterDot(stem, e);
    }
  }

  lemma SuffixStep(s: Bytes)
    requires s != [] && s[|s| - 1] != DOT
    ensures var r := Suffix(s[..|s| - 1]); Suffix(s) == (r.0, r.1 + [s[|s| - 1]])
  {
  }

  /** The type of a file is that of the table for its suffix, if it has one. */
  lemma TypeBySuffix(types: map<Bytes, Bytes>, stem: Bytes, ext: Bytes)
    requires DOT !in ext && NUL !in stem && NUL !in ext
    ensures TypeOf(types, stem + [DOT] + ext) == if ext != [] && ext in types then types[ext] else []
    ensures TypeOf(types, ext) == []
  {
    CStrAll(stem + [DOT] + ext);
    CStrAll(ext);
    SuffixAfterDot(stem, ext);
  }

  // ---- the printed text

  lemma AsciiJoin(a: string, b: string)
    ensures Ascii(a + b) == Ascii(a) + Ascii(b)
  {
  }

  lemma Literal()
    ensures Ascii("\r\n") == CRLF && Ascii("\r\n\r\n") == CRLF + CRLF && Ascii("\"") == [QUOTE]
    ensures Ascii("; name=\"") == [SEMICOLON, SPACE] + Ascii("name") + [EQUALS, QUOTE]
    ensures Ascii("; filename=\"") == [SEMICOLON, SPACE] + Ascii("filename") + [EQUALS, QUOTE]
    ensures |Ascii("; name=\"")| == 8 && |Ascii("; filename=\"")| == 12
  {
  }

  lemma LiteralDisposition()
    ensures Ascii("\r\nContent-Disposition: form-data") == CRLF + (Ascii("Content-Disposition") + [COLON, SPACE]) + Ascii("form-data")
  {
    AsciiJoin("\r\n", "Content-Disposition");
    AsciiJoin("\r\nContent-Disposition", ": form-data");
    AsciiJoin(": ", "form-data");
    assert "\r\nContent-Disposition" + ": form-data" == "\r\nContent-Disposition: form-data" && ": " + "form-data" == ": form-data";
    assert "\r\n" + "Content-Disposition" == "\r\nContent-Disposition";
    assert Ascii("\r\n") == CRLF && Ascii(": ") == [COLON, SPACE];
  }

  lemma LiteralType()
    ensures Ascii("\r\nContent-Type: ") == CRLF + (Ascii("Content-Type") + [COLON, SPACE])
  {
    AsciiJoin("\r\n", "Content-Type: ");
    AsciiJoin("Content-Type", ": ");
    assert "\r\n" + "Content-Type: " == "\r\nContent-Type: " && "Content-Type" + ": " == "Content-Type: ";
    assert Ascii("\r\n") == CRLF && Ascii(": ") == [COLON, SPACE];
  }

  /** A part as it is printed, for a name and a file name that fit the scratch buffer. */
  lemma PartPrinted(types: map<Bytes, Bytes>, boundary: Bytes, name: Bytes, f: FormData)
    requires NUL !in name && NUL !in f.filename && |name| <= 246 && |Base(f.filename)| <= 242
    ensures PartText(types, boundary, name, f) ==
      boundary + Ascii("\r\nContent-Disposition: form-data") + (Ascii("; name=\"") + name + Ascii("\"")) +
      (if f.filename == [] then [] else Ascii("; filename=\"") + Base(f.filename) + Ascii("\"")) +
      (if f.filename == [] || TypeOf(types, f.filename) == [] then [] else Ascii("\r\nContent-Type: ") + TypeOf(types, f.filename)) +
      Ascii("\r\n\r\n") + f.content + Ascii("\r\n")
  {
    Literal();
    LiteralDisposition();
    LiteralType();
    CStrAll(name);
    CStrAll(f.filename);
    hide Ascii, Base, TypeOf, CStr;
    var n, m := Quoted("name", name), if f.filename == [] then [] else Quoted("filename", Base(f.filename));
    assert n == Ascii("; name=\"") + name + Ascii("\"");
    assert f.filename != [] ==> m == Ascii("; filename=\"") + Base(f.filename) + Ascii("\"");
    assert Disposition(name, f) == Ascii("form-data") + n + m;
    var t := TypeOf(types, f.filename);
    if f.filename == [] || t == [] {
      LinesJoined(boundary, Ascii("Content-Disposition") + [COLON, SPACE], Ascii("form-data"), n, m, [], f.content);
    } else {
      var line := Ascii("Content-Type") + [COLON, SPACE] + t;
      LinesJoined(boundary, Ascii("Content-Disposition") + [COLON, SPACE], Ascii("form-data"), n, m, line, f.content);
      Associative(CRLF, Ascii("Content-Type") + [COLON, SPACE], t);
    }
  }

  lemma LinesJoined(b: Bytes, head: Bytes, kind: Bytes, n: Bytes, m: Bytes, line: Bytes, c: Bytes)
    ensures b + CRLF + (head + (kind + n + m) + CRLF + (if line == [] then [] else line + CRLF)) + CRLF + c + CRLF ==
      b + (CRLF + head + kind) + n + m + (if line == [] then [] else CRLF + line) + (CRLF + CRLF) + c + CRLF
  {
    var v := kind + n + m;
    assert b + CRLF + (head + v) == b + (CRLF + head + kind) + n + m;
    var x := b + CRLF + (head + v);
    if line == [] {
      assert b + CRLF + (head + v + CRLF + []) + CRLF == x + (CRLF + CRLF);
      assert b + (CRLF + head + kind) + n + m + [] == x;
    } else {
      assert b + CRLF + (head + v + CRLF + (line + CRLF)) + CRLF == x + (CRLF + line) + (CRLF + CRLF);
    }
  }

  /** A longer name is cut after its first 247 bytes, and loses its closing quote. */
  lemma NameCut(name: Bytes)
    requires NUL !in name && |name| >= 247
    ensures Disposition(name, FormData([], [])) == Ascii("form-data") + Ascii("; name=\"") + name[..247]
  {
    Literal();
    CStrAll(name);
    hide Ascii, CStr;
    var q := Ascii("; name=\"");
    assert Quoted("name", name) == q + name + [QUOTE];
    assert (q + name + [QUOTE])[..255] == q + name[..247];
    Associative(Ascii("form-data"), q, name[..247]);
    var d := Ascii("form-data") + (q + name[..247]);
    assert d + [] == d;
  }
}
