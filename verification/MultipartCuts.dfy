/**
  Where a body is cut: what multipart_parser_execute hands over for the pieces of a body against
  what the byte-by-byte machine makes of the whole.
  */
module MultipartCuts {

  import opened Basics
  import opened MultipartSpec

  /** The items without the bytes of header names. */
  function NoFields(items: seq<Item>): seq<Item> {
    if items == [] then []
    else (if items[0].Field? then [] else [items[0]]) + NoFields(items[1..])
  }

  lemma {:induction false} NoFieldsSplits(a: seq<Item>, c: seq<Item>)
    ensures NoFields(a + c) == NoFields(a) + NoFields(c)
    decreases |a|
  {
    if a == [] {
      assert a + c == c;
    } else {
      assert (a + c)[1..] == a[1..] + c;
      NoFieldsSplits(a[1..], c);
    }
  }

  lemma {:induction false} NoFieldsOfFields(s: Bytes)
    ensures NoFields(FieldsOf(s)) == []
    decreases |s|
  {
    if s != [] {
      assert FieldsOf(s)[1..] == FieldsOf(s[1..]);
      NoFieldsOfFields(s[1..]);
    }
  }

  /** Every header line that the bytes hold the end of has a colon after its name. */
  predicate Colons(b: Bytes, st: PState, s: Bytes)
    requires |b| >= 1 && Fits(b, st)
    decreases |s|
  {
    s != [] ==>
      (st.HeaderField? ==> s[0] == COLON || NameByte(s[0])) &&
      var r := Step(b, st, s[0]);
      r.Ok? ==> Colons(b, r.st, s[1..])
  }

  lemma {:induction false} ColonsSplits(b: Bytes, st: PState, s: Bytes, t: Bytes)
    requires |b| >= 1 && Fits(b, st)
    requires Colons(b, st, s + t)
    ensures Colons(b, st, s)
    ensures var r := Run(b, st, s); r.used == |s| ==> Colons(b, r.st, t)
    decreases |s|
  {
    if s == [] {
      assert s + t == t;
    } else {
      assert (s + t)[1..] == s[1..] + t;
      var r := Step(b, st, s[0]);
      if r.Ok? { ColonsSplits(b, r.st, s[1..], t); }
    }
  }

  lemma {:induction false} ColonsJoin(b: Bytes, st: PState, s: Bytes, t: Bytes)
    requires |b| >= 1 && Fits(b, st)
    requires Colons(b, st, s) && Run(b, st, s).used == |s| && Colons(b, Run(b, st, s).st, t)
    ensures Colons(b, st, s + t)
    decreases |s|
  {
    if s == [] {
      assert s + t == t;
    } else {
      assert (s + t)[1..] == s[1..] + t;
      ColonsJoin(b, Step(b, st, s[0]).st, s[1..], t);
    }
  }

  /** Equal, but for the bytes of header names unless `exact`. */
  predicate Alike(x: seq<Item>, y: seq<Item>, exact: bool) {
    NoFields(x) == NoFields(y) && (exact ==> x == y)
  }

  lemma AlikeAfter(p: seq<Item>, x: seq<Item>, y: seq<Item>, e: bool, f: bool)
    requires Alike(x, y, e) && (f ==> e)
    ensures Alike(p + x, p + y, f)
  {
    NoFieldsSplits(p, x);
    NoFieldsSplits(p, y);
  }

  lemma AlikeDropped(names: Bytes, x: seq<Item>, y: seq<Item>, e: bool)
    requires Alike(x, y, e)
    ensures Alike(x, FieldsOf(names) + y, false)
  {
    NoFieldsOfFields(names);
    NoFieldsSplits(FieldsOf(names), y);
  }

  lemma AlikeJoins(c1: seq<Item>, r1: seq<Item>, e1: bool, c2: seq<Item>, r2: seq<Item>, e2: bool, e: bool)
    requires Alike(c1, r1, e1) && Alike(c2, r2, e2) && (e ==> e1 && e2)
    ensures Alike(c1 + c2, r1 + r2, e)
  {
    NoFieldsSplits(c1, c2);
    NoFieldsSplits(r1, r2);
  }

  lemma NoNames(x: seq<Item>)
    ensures FieldsOf([]) + x == x && [] + x == x
  {
  }

  lemma NameGrows(names: Bytes, c: Byte, x: seq<Item>)
    ensures FieldsOf(names + [c]) + x == FieldsOf(names) + ([Field(c)] + x)
  {
  }

  /** A buffer hands over what the machine hands over; only names without a colon can be missing. */
  lemma {:induction false} HandedAlike(b: Bytes, st: PState, s: Bytes, names: Bytes)
    requires |b| >= 1 && Fits(b, st)
    requires names != [] ==> st.HeaderField?
    ensures Alike(Handed(b, st, s, names), FieldsOf(names) + Run(b, st, s).items, Colons(b, st, s))
    decreases |s|
  {
    if s == [] {
      assert FieldsOf(names) + [] == FieldsOf(names);
    } else {
      var r := Step(b, st, s[0]);
      if r.Err? {
        AlikeDropped(names, [], [], true);
        NoNames([]);
      } else {
        var c, rest := s[0], s[1..];
        var e := Colons(b, st, s);
        var t := Run(b, r.st, rest).items;
        if InName(st) && c != CR && c != COLON {
          NameGrows(names, c, t);
          HandedAlike(b, r.st, rest, names + [c]);
        } else {
          HandedAlike(b, r.st, rest, []);
          NoNames(t);
          var h, f := Handed(b, r.st, rest, []), Colons(b, r.st, rest);
          AlikeAfter(r.items, h, t, f, e);
          AlikeAfter(FieldsOf(names) + [NameEnd], h, t, f, e);
          Associative(FieldsOf(names), [NameEnd], t);
          AlikeDropped(names, h, t, f);
          NoNames(r.items + t);
        }
      }
    }
  }

  /** When a name has no colon, something is missing. */
  lemma {:induction false} HandedShort(b: Bytes, st: PState, s: Bytes, names: Bytes)
    requires |b| >= 1 && Fits(b, st)
    requires names != [] <==> st.HeaderField?
    ensures |Handed(b, st, s, names)| <= |names| + |Run(b, st, s).items|
    ensures !Colons(b, st, s) ==> |Handed(b, st, s, names)| < |names| + |Run(b, st, s).items|
    decreases |s|
  {
    if s != [] {
      var r := Step(b, st, s[0]);
      if r.Ok? {
        if InName(st) && s[0] != CR && s[0] != COLON {
          HandedShort(b, r.st, s[1..], names + [s[0]]);
        } else {
          HandedShort(b, r.st, s[1..], []);
        }
      }
    }
  }

  lemma {:induction false} NoFieldsShort(x: seq<Item>)
    ensures |NoFields(x)| <= |x|
    ensures |NoFields(x)| == |x| ==> NoFields(x) == x
    decreases |x|
  {
    if x != [] {
      NoFieldsShort(x[1..]);
      assert x == [x[0]] + x[1..];
    }
  }

  /** Bytes that hand over no name hold no line without a colon. */
  lemma ColonsWithoutNames(b: Bytes, st: PState, s: Bytes)
    requires |b| >= 1 && Fits(b, st) && !st.HeaderField?
    requires NoFields(Run(b, st, s).items) == Run(b, st, s).items
    ensures Colons(b, st, s)
  {
    hide Run, Handed, Colons;
    HandedAlike(b, st, s, []);
    NoNames(Run(b, st, s).items);
    NoFieldsShort(Handed(b, st, s, []));
    HandedShort(b, st, s, []);
  }

  /** A body in pieces, up to the first piece that is refused. */
  function HandedAll(b: Bytes, st: PState, pieces: seq<Bytes>): seq<Item>
    requires |b| >= 1 && Fits(b, st)
    decreases |pieces|
  {
    if pieces == [] then []
    else
      var h, r := Handed(b, st, pieces[0], []), Run(b, st, pieces[0]);
      if r.used < |pieces[0]| then h else h + HandedAll(b, r.st, pieces[1..])
  }

  /**
    However the body is cut, the callbacks for parts, values and data are those of the whole body,
    and so are those for names when every header line has a colon.
    */
  lemma {:induction false} CutsAlike(b: Bytes, st: PState, pieces: seq<Bytes>)
    requires |b| >= 1 && Fits(b, st)
    ensures Alike(HandedAll(b, st, pieces), Run(b, st, Concat(pieces)).items, Colons(b, st, Concat(pieces)))
    decreases |pieces|
  {
    if pieces == [] {
    } else {
      var s, t := pieces[0], Concat(pieces[1..]);
      var r := Run(b, st, s);
      var e := Colons(b, st, s + t);
      RunSplits(b, st, s, t);
      HandedAlike(b, st, s, []);
      NoNames(r.items);
      if e { ColonsSplits(b, st, s, t); }
      if r.used < |s| {
        AlikeAfter([], Handed(b, st, s, []), r.items, Colons(b, st, s), e);
        NoNames(Handed(b, st, s, []));
      } else {
        CutsAlike(b, r.st, pieces[1..]);
        AlikeJoins(Handed(b, st, s, []), r.items, Colons(b, st, s),
                   HandedAll(b, r.st, pieces[1..]), Run(b, r.st, t).items, Colons(b, r.st, t), e);
      }
    }
  }

  function Singles(s: Bytes): seq<Bytes> {
    if s == [] then [] else [[s[0]]] + Singles(s[1..])
  }

  /** Fed byte by byte, the parser hands over what the machine does. */
  lemma {:induction false} SinglesExact(b: Bytes, st: PState, s: Bytes)
    requires |b| >= 1 && Fits(b, st)
    ensures Concat(Singles(s)) == s
    ensures HandedAll(b, st, Singles(s)) == Run(b, st, s).items
    decreases |s|
  {
    if s != [] {
      var p := Singles(s);
      assert p[0] == [s[0]] && p[1..] == Singles(s[1..]);
      var r := Step(b, st, s[0]);
      SingleExact(b, st, s[0]);
      if r.Ok? {
        SinglesExact(b, r.st, s[1..]);
      } else {
        SinglesExact(b, st, s[1..]);
      }
    }
  }

  lemma SingleExact(b: Bytes, st: PState, c: Byte)
    requires |b| >= 1 && Fits(b, st)
    ensures var r := Step(b, st, c);
      Handed(b, st, [c], []) == (if r.Ok? then r.items else []) &&
      Run(b, st, [c]) == (if r.Ok? then Outcome(r.items, r.st, 1) else Outcome([], st, 0))
  {
    var r := Step(b, st, c);
    assert [c][1..] == [];
    assert [] + [c] == [c];
    if r.Ok? {
      assert Run(b, r.st, []) == Outcome([], r.st, 0);
      assert r.items + [] == r.items;
    }
  }

  /** Whether the callbacks depend on the cuts: they do not exactly when every header line has a colon. */
  lemma CutsMatter(b: Bytes, s: Bytes)
    requires |b| >= 1
    ensures (forall pieces | Concat(pieces) == s :: HandedAll(b, Start, pieces) == HandedAll(b, Start, [s])) <==>
            Colons(b, Start, s)
  {
    hide Run, Handed, HandedAll, Colons;
    OnePiece(b, s);
    if Colons(b, Start, s) {
      forall pieces | Concat(pieces) == s ensures HandedAll(b, Start, pieces) == HandedAll(b, Start, [s]) {
        CutsAlike(b, Start, pieces);
        CutsAlike(b, Start, [s]);
      }
    } else {
      SinglesExact(b, Start, s);
      HandedShort(b, Start, s, []);
    }
  }

  /** A body with the boundary "--" that ends in a header line without a colon. */
  const BARE_BODY: Bytes := [HYPHEN, HYPHEN, CR, LF, 120, CR]

  lemma BareLine()
    ensures !Colons([HYPHEN, HYPHEN], Start, BARE_BODY)
  {
    var b: Bytes := [HYPHEN, HYPHEN];
    ColonsNext(b, Start, BARE_BODY);
    ColonsNext(b, StartBoundary(1), BARE_BODY[1..]);
    ColonsNext(b, StartBoundary(2), BARE_BODY[2..]);
    ColonsNext(b, StartBoundary(3), BARE_BODY[3..]);
    ColonsNext(b, HeaderFieldStart, BARE_BODY[4..]);
    ColonsNext(b, HeaderField, BARE_BODY[5..]);
    hide Colons;
    assert forall i :: 1 <= i < 6 ==> BARE_BODY[i..][0] == BARE_BODY[i];
  }

  lemma ColonsNext(b: Bytes, st: PState, s: Bytes)
    requires |b| >= 1 && Fits(b, st) && s != []
    ensures Colons(b, st, s) ==>
      (st.HeaderField? ==> s[0] == COLON || NameByte(s[0])) &&
      (Step(b, st, s[0]).Ok? ==> Colons(b, Step(b, st, s[0]).st, s[1..]))
  {
  }

  /** Its callbacks do depend on the cuts. */
  lemma CutsCanMatter() returns (pieces: seq<Bytes>)
    ensures Concat(pieces) == BARE_BODY
    ensures HandedAll([HYPHEN, HYPHEN], Start, pieces) != HandedAll([HYPHEN, HYPHEN], Start, [BARE_BODY])
  {
    hide Colons, HandedAll, Handed, Run, Step;
    BareLine();
    CutsMatter([HYPHEN, HYPHEN], BARE_BODY);
    pieces :| Concat(pieces) == BARE_BODY &&
              HandedAll([HYPHEN, HYPHEN], Start, pieces) != HandedAll([HYPHEN, HYPHEN], Start, [BARE_BODY]);
  }

  lemma OnePiece(b: Bytes, s: Bytes)
    requires |b| >= 1
    ensures Concat([s]) == s && HandedAll(b, Start, [s]) == Handed(b, Start, s, [])
  {
    assert [s][1..] == [];
    assert s + [] == s;
    var h := Handed(b, Start, s, []);
    assert h + [] == h;
  }
}
