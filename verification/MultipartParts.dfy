/**
  What the data of a part is: the bytes up to the first delimiter, for a boundary without CR.
  */
module MultipartParts {

  import opened Basics
  import opened MultipartSpec

  // ---- the first delimiter

  lemma {:induction false} BoundaryFirst(b: Bytes, i: nat, s: Bytes)
    requires |b| >= 1 && i <= |b|
    ensures Run(b, StartBoundary(i), s).used >= |b| - i <==> b[i..] <= s
    decreases |b| - i
  {
    if i < |b| && s != [] {
      if s[0] == b[i] { BoundaryFirst(b, i + 1, s[1..]); }
      assert b[i..] == [b[i]] + b[i + 1..];
      assert s == [s[0]] + s[1..];
    }
  }

  /** The parser gets past the boundary exactly when the body begins with it: nothing may stand before. */
  lemma NoPreamble(b: Bytes, s: Bytes)
    requires |b| >= 1
    ensures Run(b, Start, s).used >= |b| <==> b <= s
  {
    BoundaryFirst(b, 0, s);
    assert b[0..] == b;
    if s != [] { assert Step(b, Start, s[0]) == Step(b, StartBoundary(0), s[0]); }
  }

  // ---- the data of a part

  ghost predicate OccursAt(d: Bytes, s: Bytes, p: nat) { p + |d| <= |s| && s[p..p + |d|] == d }

  lemma OccursInPrefix(d: Bytes, s: Bytes, n: nat, p: nat)
    requires n <= |s|
    ensures OccursAt(d, s[..n], p) ==> OccursAt(d, s, p) && p + |d| <= n
  {
    if p + |d| <= n { assert s[..n][p..p + |d|] == s[p..p + |d|]; }
  }

  /** The suffix that starts with the last CR, if there is one. */
  function Tail(s: Bytes): Bytes {
    if s == [] then []
    else
      var c, t := s[|s| - 1], Tail(s[..|s| - 1]);
      if c == CR then [CR] else if t == [] then [] else t + [c]
  }

  lemma {:induction false} TailSuffix(s: Bytes)
    ensures |Tail(s)| <= |s| && s[|s| - |Tail(s)|..] == Tail(s)
    decreases |s|
  {
    if s != [] {
      var n := |s| - 1;
      var s', c := s[..n], s[n];
      var t := Tail(s');
      assert Tail(s) == if c == CR then [CR] else if t == [] then [] else t + [c];
      hide Tail;
      TailSuffix(s');
      if c == CR {
        assert s[n..] == [CR];
      } else if t != [] {
        SuffixMore(s', t, c);
        assert s' + [c] == s;
      }
    }
  }

  lemma SuffixMore(s: Bytes, t: Bytes, c: Byte)
    requires |t| <= |s| && s[|s| - |t|..] == t
    ensures (s + [c])[|s| - |t|..] == t + [c]
  {
  }

  /** A suffix whose only CR is its first byte is the tail. */
  lemma {:induction false} TailUnique(s: Bytes, d: Bytes)
    requires |d| >= 1 && d[0] == CR && CR !in d[1..]
    ensures Tail(s + d) == d
    decreases |d|
  {
    var e := d[..|d| - 1];
    assert (s + d)[..|s + d| - 1] == s + e;
    if |d| == 1 {
      assert d == [CR];
    } else {
      assert e[1..] == d[1..|d| - 1];
      TailUnique(s, e);
      assert d[|d| - 1] == d[1..][|d| - 2];
      assert e + [d[|d| - 1]] == d;
    }
  }

  predicate InData(st: PState) { st.PartData? || st.AlmostBoundary? || st.DataBoundary? }

  /** What is held back after the data s: its tail, when that may be the beginning of a delimiter. */
  function HeldAfter(b: Bytes, s: Bytes): Bytes {
    var t := Tail(s);
    if t <= Delimiter(b) && |t| < |Delimiter(b)| then t else []
  }

  /** One more byte of data that does not complete a delimiter. */
  lemma DataStep(b: Bytes, st: PState, s: Bytes, c: Byte)
    requires |b| >= 1 && CR !in b && InData(st) && Fits(b, st)
    requires Held(b, st) == HeldAfter(b, s)
    requires Tail(s + [c]) != Delimiter(b)
    ensures var r := Step(b, st, c);
      r.Ok? && InData(r.st) && Held(b, r.st) == HeldAfter(b, s + [c]) &&
      r.items + DataOf(Held(b, r.st)) == DataOf(Held(b, st) + [c])
  {
    assert (s + [c])[..|s|] == s;
    var d := Delimiter(b);
    var t := Tail(s);
    var r := Step(b, st, c);
    match st {
      case PartData =>
        assert t == [] || !(t <= d && |t| < |d|);
        assert t != [] && t + [c] <= d ==> t <= d;
      case AlmostBoundary =>
        assert t == [CR] && (t + [c])[1] == c && d[1] == LF;
        assert c == LF ==> [CR] + [LF] == [CR, LF] + b[..0];
      case DataBoundary(i) =>
        assert t == [CR, LF] + b[..i];
        assert d[2 + i] == b[i] && b[i] in b;
        if c == b[i] { assert t + [c] == [CR, LF] + b[..i + 1]; }
    }
  }

  /**
    Data without a delimiter: all of it is handed over but what is held back, and the part does
    not end.
    */
  lemma {:induction false} DataGoesOn(b: Bytes, s: Bytes)
    requires |b| >= 1 && CR !in b
    requires forall p: nat :: !OccursAt(Delimiter(b), s, p)
    ensures var r := Run(b, PartData, s);
      r.used == |s| && InData(r.st) && Held(b, r.st) == HeldAfter(b, s) &&
      r.items + DataOf(Held(b, r.st)) == DataOf(s)
    decreases |s|
  {
    if s != [] {
      var n := |s| - 1;
      var t, c := s[..n], s[n];
      assert s == t + [c];
      forall p: nat ensures !OccursAt(Delimiter(b), t, p) { OccursInPrefix(Delimiter(b), s, n, p); }
      DataGoesOn(b, t);
      TailSuffix(s);
      assert Tail(s) == Delimiter(b) ==> OccursAt(Delimiter(b), s, |s| - |Delimiter(b)|);
      var q := Run(b, PartData, t);
      DataStep(b, q.st, t, c);
      RunSplits(b, PartData, t, [c]);
      RunOne(b, q.st, c);
      DataJoined(q.items, Held(b, q.st), t, c, Step(b, q.st, c).items, DataOf(HeldAfter(b, s)));
    }
  }

  lemma RunOne(b: Bytes, st: PState, c: Byte)
    requires |b| >= 1 && Fits(b, st) && Step(b, st, c).Ok?
    ensures Run(b, st, [c]) == Outcome(Step(b, st, c).items, Step(b, st, c).st, 1)
  {
    var r := Step(b, st, c);
    assert [c][1..] == [];
    assert Run(b, r.st, []) == Outcome([], r.st, 0);
    assert r.items + [] == r.items;
  }

  lemma DataJoined(x: seq<Item>, h: Bytes, t: Bytes, c: Byte, y: seq<Item>, z: seq<Item>)
    requires x + DataOf(h) == DataOf(t) && y + z == DataOf(h + [c])
    ensures x + y + z == DataOf(t + [c])
  {
    assert DataOf(h + [c]) == DataOf(h) + [Data(c)];
    assert DataOf(t + [c]) == DataOf(t) + [Data(c)];
    assert x + y + z == x + (y + z);
    assert x + (DataOf(h) + [Data(c)]) == x + DataOf(h) + [Data(c)];
  }

  /** After the first delimiter the part has ended, and its data is what stood before the delimiter. */
  lemma DataEnds(b: Bytes, s: Bytes)
    requires |b| >= 1 && CR !in b
    requires forall q: nat :: q < |s| ==> !OccursAt(Delimiter(b), s + Delimiter(b), q)
    ensures Run(b, PartData, s + Delimiter(b)) ==
            Outcome(DataOf(s) + [PartEnd], AlmostEnd, |s| + |Delimiter(b)|)
  {
    hide OccursAt, Run, Step, Held, HeldAfter, DataOf;
    var d := Delimiter(b);
    var e, c := d[..|b| + 1], d[|b| + 1];
    var t := s + e;
    assert d == e + [c];
    Associative(s, e, [c]);
    NoneBefore(b, s);
    DataGoesOn(b, t);
    DelimiterTail(b, s);
    var r := Run(b, PartData, t);
    HeldLong(b, r.st);
    DataCut(r.items, s, e);
    RunSplits(b, PartData, t, [c]);
    RunOne(b, r.st, c);
  }

  lemma NoneBefore(b: Bytes, s: Bytes)
    requires |b| >= 1
    requires forall q: nat :: q < |s| ==> !OccursAt(Delimiter(b), s + Delimiter(b), q)
    ensures var t := s + Delimiter(b)[..|b| + 1]; forall q: nat :: !OccursAt(Delimiter(b), t, q)
  {
    var d := Delimiter(b);
    var t := s + d[..|b| + 1];
    assert (s + d)[..|t|] == t;
    forall q: nat ensures !OccursAt(d, t, q) { OccursInPrefix(d, s + d, |t|, q); }
  }

  lemma DelimiterTail(b: Bytes, s: Bytes)
    requires |b| >= 1 && CR !in b
    ensures HeldAfter(b, s + Delimiter(b)[..|b| + 1]) == Delimiter(b)[..|b| + 1]
  {
    var e := Delimiter(b)[..|b| + 1];
    assert e[0] == CR && CR !in e[1..] by { assert e[1..] == [LF] + b[..|b| - 1]; }
    TailUnique(s, e);
  }

  /** The first byte of data tells the callbacks that the headers are complete. */
  lemma DataBegins(b: Bytes, s: Bytes)
    requires |b| >= 1 && s != []
    ensures var r := Run(b, PartData, s);
      Run(b, PartDataStart, s) == Outcome([HeadersComplete] + r.items, r.st, r.used)
  {
    var r := Step(b, PartData, s[0]);
    var t := Run(b, r.st, s[1..]);
    RunStep(b, PartDataStart, s);
    RunStep(b, PartData, s);
    assert Step(b, PartDataStart, s[0]) == Ok(r.st, [HeadersComplete] + r.items);
    Associative([HeadersComplete], r.items, t.items);
  }

  /**
    The data of a part are the bytes between its headers and the first delimiter, whatever other
    line ends and beginnings of delimiters they hold.
    */
  lemma PartExact(b: Bytes, s: Bytes)
    requires |b| >= 1 && CR !in b
    requires forall q: nat :: q < |s| ==> !OccursAt(Delimiter(b), s + Delimiter(b), q)
    ensures Run(b, PartDataStart, s + Delimiter(b)) ==
            Outcome([HeadersComplete] + DataOf(s) + [PartEnd], AlmostEnd, |s| + |Delimiter(b)|)
  {
    DataEnds(b, s);
    DataBegins(b, s + Delimiter(b));
    Associative([HeadersComplete], DataOf(s), [PartEnd]);
  }

  lemma HeldLong(b: Bytes, st: PState)
    requires |b| >= 1 && Fits(b, st) && |Held(b, st)| == |b| + 1 && InData(st)
    ensures Step(b, st, b[|b| - 1]) == Ok(AlmostEnd, [PartEnd])
  {
  }

  lemma DataCut(x: seq<Item>, s: Bytes, e: Bytes)
    requires x + DataOf(e) == DataOf(s + e)
    ensures x == DataOf(s)
  {
    assert DataOf(s + e) == DataOf(s) + DataOf(e);
    assert |x| == |s|;
    assert x == (x + DataOf(e))[..|s|];
    assert DataOf(s) == (DataOf(s) + DataOf(e))[..|s|];
  }
}
