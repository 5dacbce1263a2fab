/**
  dump_multipart and parse_multipart, http/http_content.cpp:70-248, with split of
  cpputil/hstring.cpp.
  */
module Form {

  import opened Basics
  import opened MultipartSpec
  import opened Multipart
  import opened FormText
  import opened FormSpec
  import opened FormRead
  import opened FormRound

  /** The pieces, when some are done, one is under way and the rest is still to be cut. */
  function Resumed(res: seq<Bytes>, piece: Bytes, rest: seq<Bytes>): seq<Bytes>
    requires |rest| >= 1
  {
    res + [piece + rest[0]] + rest[1..]
  }

  lemma CStrFrom(s: Bytes, p: nat)
    requires p <= |s|
    ensures CStr(s[p..]) == if p == |s| || s[p] == NUL then [] else [s[p]] + CStr(s[p + 1..])
  {
    if p < |s| { assert s[p..][1..] == s[p + 1..]; }
  }

  lemma PiecesFrom(c: Byte, t: Bytes, d: Byte)
    ensures var r := Pieces(t, d);
      Pieces([c] + t, d) == if c == d then [[]] + r else [[c] + r[0]] + r[1..]
  {
    assert ([c] + t)[1..] == t;
  }

  /** split. */
  method SplitAt(s: Bytes, d: Byte) returns (res: seq<Bytes>)
    requires d != NUL
    ensures res == Split(s, d)
  {
    hide Pieces, CStr;
    var p, from := 0, 0;
    res := [];
    assert s[0..] == s && s[0..0] == [];
    ghost var all := Split(s, d);
    assert [] + all[0] == all[0] && [] + [all[0]] + all[1..] == all;
    while p < |s| && s[p] != NUL
      invariant from <= p <= |s|
      invariant Resumed(res, s[from..p], Pieces(CStr(s[p..]), d)) == all
    {
      CStrFrom(s, p);
      PiecesFrom(s[p], CStr(s[p + 1..]), d);
      ghost var rest := Pieces(CStr(s[p + 1..]), d);
      if s[p] == d {
        PieceDone(res, s[from..p], rest);
        res := res + [s[from..p]];
        from := p + 1;
        assert s[from..p + 1] == [];
      } else {
        PieceGrows(res, s[from..p], s[p], rest);
        assert s[from..p + 1] == s[from..p] + [s[p]];
      }
      p := p + 1;
    }
    CStrFrom(s, p);
    PiecesNone(d);
    LastPiece(res, s[from..p]);
    res := res + [s[from..p]];
  }

  lemma PiecesNone(d: Byte)
    ensures Pieces([], d) == [[]]
  {
  }

  lemma PieceDone(res: seq<Bytes>, piece: Bytes, rest: seq<Bytes>)
    requires |rest| >= 1
    ensures Resumed(res, piece, [[]] + rest) == Resumed(res + [piece], [], rest)
  {
    assert ([[]] + rest)[1..] == rest && piece + [] == piece && [] + rest[0] == rest[0];
    assert res + [piece] + rest == res + [piece] + [rest[0]] + rest[1..];
  }

  lemma PieceGrows(res: seq<Bytes>, piece: Bytes, c: Byte, rest: seq<Bytes>)
    requires |rest| >= 1
    ensures Resumed(res, piece, [[c] + rest[0]] + rest[1..]) == Resumed(res, piece + [c], rest)
  {
    assert piece + ([c] + rest[0]) == piece + [c] + rest[0];
    assert ([[c] + rest[0]] + rest[1..])[1..] == rest[1..];
  }

  lemma LastPiece(res: seq<Bytes>, piece: Bytes)
    ensures Resumed(res, piece, [[]]) == res + [piece]
  {
    var one: seq<Bytes> := [[]];
    assert piece + [] == piece && one[1..] == [];
    assert res + [piece] + [] == res + [piece];
  }

  /** struct multipart_parser_userdata. */
  class UserData {
    var mp: map<Bytes, FormData>
    var headerField: Bytes
    var headerValue: Bytes
    var partData: Bytes
    var name: Bytes
    var filename: Bytes

    ghost function View(run: Bytes): User
      reads this
    {
      User(mp, headerField, headerValue, partData, name, filename, run)
    }

    constructor (parts: map<Bytes, FormData>)
      ensures View([]) == Fresh(parts)
    {
      mp, headerField, headerValue, partData, name, filename := parts, [], [], [], [], [];
    }

    /** The loop over the parameters of a Content-Disposition header. */
    method SetParams(list: seq<Bytes>, ghost run: Bytes)
      modifies `name, `filename
      ensures View(run) == Params(old(View(run)), list)
    {
      var i := 0;
      assert list[0..] == list;
      while i < |list|
        invariant i <= |list|
        invariant Params(View(run), list[i..]) == Params(old(View(run)), list)
      {
        ghost var u := View(run);
        assert list[i..][1..] == list[i + 1..];
        var kv := SplitAt(Trim(list[i]), EQUALS);
        if |kv| == 2 {
          var value := TrimPairs(kv[1]);
          if kv[0] == Ascii("name") {
            name := value;
          } else if kv[0] == Ascii("filename") {
            filename := value;
          }
        }
        assert View(run) == Param(u, list[i]);
        i := i + 1;
      }
    }

    /** handle_header. */
    method HandleHeader(ghost run: Bytes)
      modifies this
      ensures View(run) == FormSpec.HandleHeader(old(View(run)))
    {
      if headerField == [] || headerValue == [] { return; }
      if Lowered(CStr(headerField)) == Lowered(Ascii("Content-Disposition")) {
        var list := SplitAt(headerValue, SEMICOLON);
        SetParams(list, run);
      }
      headerField, headerValue := [], [];
    }

    /** handle_data. */
    method HandleData(ghost run: Bytes)
      modifies this
      ensures View(run) == FormSpec.HandleData(old(View(run)))
    {
      if name != [] {
        mp := mp[name := FormData(filename, partData)];
      }
      name, filename, partData := [], [], [];
    }

    /** The callbacks; the bytes of a header name come in one call. */
    method On(item: Item, run: Bytes) returns (rest: Bytes)
      modifies this
      ensures View(rest) == OnItem(old(View(run)), item)
    {
      rest := run;
      match item {
        case Field(b) => rest := run + [b];
        case NameEnd =>
          HandleHeader(run);
          headerField := headerField + run;
          rest := [];
        case Val(b) => headerValue := headerValue + [b];
        case HeadersComplete => HandleHeader(run);
        case Data(b) => partData := partData + [b];
        case PartEnd => HandleData(run);
        case _ =>
      }
    }
  }

  /** parse_multipart. */
  method ParseMultipart(s: Bytes, mp: map<Bytes, FormData>, boundary: Bytes)
      returns (ok: bool, parts: map<Bytes, FormData>)
    ensures (ok, parts) == Parsed(boundary, s, mp)
  {
    hide Run, Handed, OnItem, OnItems;
    var parser := new Parser([HYPHEN, HYPHEN] + boundary);
    var user := new UserData(mp);
    var used := parser.Execute(s);
    var calls := parser.calls;
    assert [] + calls == calls && calls[0..] == calls;
    var k, run: Bytes := 0, [];
    while k < |calls|
      invariant k <= |calls|
      invariant OnItems(user.View(run), calls[k..]) == OnItems(Fresh(mp), calls)
    {
      OnNext(user.View(run), calls, k);
      run := user.On(calls[k], run);
      k := k + 1;
    }
    OnNone(user.View(run), calls[k..]);
    ok, parts := used == |s|, user.mp;
  }

  lemma OnNext(u: User, calls: seq<Item>, k: nat)
    requires k < |calls|
    ensures OnItems(u, calls[k..]) == OnItems(OnItem(u, calls[k]), calls[k + 1..])
  {
    assert calls[k..][1..] == calls[k + 1..];
  }

  lemma OnNone(u: User, calls: seq<Item>)
    ensures calls == [] ==> OnItems(u, calls) == u
  {
  }

  lemma FieldText(r: Bytes, name: Bytes, kind: Bytes, n: Bytes, m: Bytes)
    ensures r + name + [COLON, SPACE] + kind + n + m + CRLF == r + (name + [COLON, SPACE] + (kind + n + m) + CRLF)
  {
  }

  lemma TypeText(r: Bytes, name: Bytes, value: Bytes)
    ensures r + CRLF + name + [COLON, SPACE] + value + CRLF == r + CRLF + (name + [COLON, SPACE] + value + CRLF)
  {
  }

  lemma WholePart(str: Bytes, hyphens: Bytes, boundary: Bytes, h: Bytes, c: Bytes)
    ensures str + hyphens + boundary + CRLF + h + CRLF + c + CRLF ==
            str + (hyphens + boundary + CRLF + h + CRLF + c + CRLF)
  {
  }

  /** dump_part, for a part whose content is not to be read from a file. */
  method DumpPart(types: map<Bytes, Bytes>, str: Bytes, name: Bytes, boundary: Bytes, f: FormData) returns (r: Bytes)
    requires f.filename != [] ==> f.content != []
    ensures r == str + PartText(types, [HYPHEN, HYPHEN] + boundary, name, f)
  {
    hide Ascii, Cut, Quoted, Base, CStr, TypeOf;
    r := str + [HYPHEN, HYPHEN];
    r := r + boundary;
    r := r + CRLF;
    ghost var start := r;
    r := r + Ascii("Content-Disposition") + [COLON, SPACE] + Ascii("form-data");
    var quoted := Cut(Quoted("name", CStr(name)));
    r := r + quoted;
    var stype := [];
    var file := [];
    if f.filename != [] {
      file := Cut(Quoted("filename", Base(CStr(f.filename))));
      r := r + file;
      stype := TypeOf(types, f.filename);
    }
    assert r + [] == r;
    FieldText(start, Ascii("Content-Disposition"), Ascii("form-data"), quoted, file);
    ghost var disposition := Header("Content-Disposition", Disposition(name, f));
    assert r + CRLF == start + disposition;
    if stype != [] {
      ghost var before := r;
      r := r + CRLF;
      r := r + Ascii("Content-Type") + [COLON, SPACE];
      r := r + stype;
      TypeText(before, Ascii("Content-Type"), stype);
      Associative(start, disposition, Header("Content-Type", stype));
    }
    assert disposition + [] == disposition;
    ghost var h := Headers(types, name, f);
    assert r + CRLF == start + h;
    ghost var ended := r;
    r := r + (CRLF + CRLF);
    Associative(ended, CRLF, CRLF);
    r := r + f.content;
    r := r + CRLF;
    WholePart(str, [HYPHEN, HYPHEN], boundary, h, f.content);
  }

  /** The order of dump_multipart: the parts that are not files first. */
  function FilesLast(form: map<Bytes, FormData>, order: seq<Bytes>): seq<Bytes>
    requires forall k :: k in order ==> k in form
  {
    Those(form, order, false) + Those(form, order, true)
  }

  function Those(form: map<Bytes, FormData>, order: seq<Bytes>, file: bool): seq<Bytes>
    requires forall k :: k in order ==> k in form
  {
    if order == [] then []
    else
      var n := |order| - 1;
      Those(form, order[..n], file) + if (form[order[n]].filename != []) == file then [order[n]] else []
  }

  lemma ThoseStep(form: map<Bytes, FormData>, order: seq<Bytes>, i: nat, file: bool)
    requires i < |order| && forall k :: k in order ==> k in form
    ensures Those(form, order[..i + 1], file) ==
      if (form[order[i]].filename != []) == file then Those(form, order[..i], file) + [order[i]]
      else Those(form, order[..i], file)
  {
    assert order[..i + 1][..i] == order[..i];
  }

  lemma {:induction false} ThoseHas(form: map<Bytes, FormData>, order: seq<Bytes>, file: bool)
    requires forall k :: k in order ==> k in form
    ensures forall k :: k in Those(form, order, file) <==> k in order && (form[k].filename != []) == file
    decreases |order|
  {
    if order != [] {
      var n := |order| - 1;
      ThoseHas(form, order[..n], file);
      assert order == order[..n] + [order[n]];
    }
  }

  lemma {:induction false} ThoseDistinct(form: map<Bytes, FormData>, order: seq<Bytes>, file: bool)
    requires NoDup(order) && forall k :: k in order ==> k in form
    ensures NoDup(Those(form, order, file))
    decreases |order|
  {
    if order != [] {
      var n := |order| - 1;
      ThoseDistinct(form, order[..n], file);
      ThoseHas(form, order[..n], file);
      assert order[n] !in order[..n];
    }
  }

  /** Every part once, the files after the others. */
  lemma FilesLastOnce(form: map<Bytes, FormData>, order: seq<Bytes>)
    requires NoDup(order) && forall k :: k in order ==> k in form
    ensures NoDup(FilesLast(form, order)) && forall k :: k in FilesLast(form, order) <==> k in order
    ensures forall i, j :: 0 <= i < j < |FilesLast(form, order)| && form[FilesLast(form, order)[i]].filename != [] ==>
      form[FilesLast(form, order)[j]].filename != []
  {
    var x, y := Those(form, order, false), Those(form, order, true);
    ThoseDistinct(form, order, false);
    ThoseDistinct(form, order, true);
    ThoseHas(form, order, false);
    ThoseHas(form, order, true);
    forall i | 0 <= i < |x| ensures form[x[i]].filename == [] { assert x[i] in x; }
    forall i | 0 <= i < |y| ensures form[y[i]].filename != [] { assert y[i] in y; }
  }

  lemma {:induction false} PartsJoin(types: map<Bytes, Bytes>, b: Bytes, form: map<Bytes, FormData>,
                                     x: seq<Bytes>, y: seq<Bytes>)
    requires forall k :: k in x + y ==> k in form
    ensures (forall k :: k in x ==> k in form) && (forall k :: k in y ==> k in form)
    ensures PartsText(types, b, form, x + y) == PartsText(types, b, form, x) + PartsText(types, b, form, y)
    decreases |x|
  {
    assert forall k :: k in x + y <==> k in x || k in y;
    if x == [] {
      assert x + y == y;
    } else {
      assert (x + y)[1..] == x[1..] + y;
      PartsJoin(types, b, form, x[1..], y);
      Associative(PartText(types, b, x[0], form[x[0]]), PartsText(types, b, form, x[1..]), PartsText(types, b, form, y));
    }
  }

  lemma PartsGrow(types: map<Bytes, Bytes>, b: Bytes, form: map<Bytes, FormData>, x: seq<Bytes>, k: Bytes)
    requires (forall k :: k in x ==> k in form) && k in form
    ensures PartsText(types, b, form, x + [k]) == PartsText(types, b, form, x) + PartText(types, b, k, form[k])
  {
    PartsJoin(types, b, form, x, [k]);
    hide PartText;
    assert PartsText(types, b, form, [k]) == PartText(types, b, k, form[k]) + [];
  }

  /**
    dump_multipart: the printed text is that of the parts in the order of the map, with the files
    moved to the end; order is the order in which the map is walked.
    */
  method DumpMultipart(types: map<Bytes, Bytes>, form: map<Bytes, FormData>, order: seq<Bytes>, boundary: Bytes)
      returns (str: Bytes)
    requires NoDup(order) && forall k :: k in order <==> k in form
    requires forall k :: k in form && form[k].filename != [] ==> form[k].content != []
    ensures NoDup(FilesLast(form, order)) && forall k :: k in FilesLast(form, order) <==> k in form
    ensures str == DumpText(types, [HYPHEN, HYPHEN] + boundary, form, FilesLast(form, order))
  {
    hide PartText, PartsText, Those;
    ghost var b := [HYPHEN, HYPHEN] + boundary;
    ThoseHas(form, order, false);
    ThoseHas(form, order, true);
    FilesLastOnce(form, order);
    hide NoDup;
    str := [];
    assert order != [] ==> order[0] in form;
    ThoseEmpty(form);
    if |form| == 0 {
      assert order == [];
      return;
    }
    var files := [];
    var i := 0;
    PartsEmpty(types, b, form);
    assert order[..0] == [];
    while i < |order|
      invariant i <= |order|
      invariant files == Those(form, order[..i], true)
      invariant forall k :: k in Those(form, order[..i], false) ==> k in form
      invariant forall k :: k in files ==> k in form
      invariant str == PartsText(types, b, form, Those(form, order[..i], false))
    {
      var k := order[i];
      ThoseStep(form, order, i, false);
      ThoseStep(form, order, i, true);
      if form[k].filename != [] {
        files := files + [k];
      } else {
        PartsGrow(types, b, form, Those(form, order[..i], false), k);
        str := DumpPart(types, str, k, boundary, form[k]);
      }
      i := i + 1;
    }
    assert order[..i] == order;
    ghost var plain := Those(form, order, false);
    assert plain + [] == plain;
    var j := 0;
    while j < |files|
      invariant j <= |files|
      invariant str == PartsText(types, b, form, plain + files[..j])
    {
      var k := files[j];
      assert plain + files[..j] + [k] == plain + files[..j + 1];
      PartsGrow(types, b, form, plain + files[..j], k);
      str := DumpPart(types, str, k, boundary, form[k]);
      j := j + 1;
    }
    assert files[..j] == files;
    str := str + [HYPHEN, HYPHEN];
    str := str + boundary;
    str := str + [HYPHEN, HYPHEN] + CRLF;
    Associative(PartsText(types, b, form, plain + files), [HYPHEN, HYPHEN], boundary);
    assert order[0] in plain + files;
  }

  lemma ThoseEmpty(form: map<Bytes, FormData>)
    ensures Those(form, [], false) == [] && Those(form, [], true) == []
  {
  }

  lemma PartsEmpty(types: map<Bytes, Bytes>, b: Bytes, form: map<Bytes, FormData>)
    ensures PartsText(types, b, form, []) == []
  {
  }
}
