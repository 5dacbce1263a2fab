/**
  The byte-by-byte meaning of http/multipart_parser.c.

  Callbacks that carry data are taken apart into one item per byte, so that it does not
  matter in how many pieces the parser hands a run of bytes over.
  */
module MultipartSpec {

  import opened Basics

  const CR: Byte := 13
  const LF: Byte := 10
  const COLON: Byte := 58
  const SPACE: Byte := 32
  const HYPHEN: Byte := 45
  const CRLF: Bytes := [CR, LF]

  /** enum state, with the index it uses. */
  datatype PState =
    | Start
    | StartBoundary(index: nat)
    | HeaderFieldStart
    | HeaderField
    | HeadersAlmostDone
    | HeaderValueStart
    | HeaderValue
    | HeaderValueAlmostDone
    | PartDataStart
    | PartData
    | AlmostBoundary
    | DataBoundary(index: nat)
    | AlmostEnd
    | PartDataEnd
    | FinalHyphen
    | End

  /** NameEnd: the colon of a header line, where its name is handed over if it has not been. */
  datatype Item = PartBegin | Field(b: Byte) | NameEnd | Val(b: Byte) | HeadersComplete | Data(b: Byte) | PartEnd | BodyEnd

  /** The states in which the name of a header line is read. */
  predicate InName(st: PState) { st.HeaderFieldStart? || st.HeaderField? }

  datatype Result = Ok(st: PState, items: seq<Item>) | Err

  function Lower(c: Byte): int { if 65 <= c <= 90 then c + 32 else c }

  predicate NameByte(c: Byte) { c == HYPHEN || 97 <= Lower(c) <= 122 }

  function DataOf(s: Bytes): seq<Item> { seq(|s|, i requires 0 <= i < |s| => Data(s[i])) }
  function FieldsOf(s: Bytes): seq<Item> { seq(|s|, i requires 0 <= i < |s| => Field(s[i])) }
  function ValuesOf(s: Bytes): seq<Item> { seq(|s|, i requires 0 <= i < |s| => Val(s[i])) }

  /** What ends the data of a part; the boundary given to the parser includes the leading hyphens. */
  function Delimiter(b: Bytes): Bytes { [CR, LF] + b }

  /** A state that a parser for the boundary b can be in. */
  predicate Fits(b: Bytes, st: PState) {
    match st
    case StartBoundary(i) => i <= |b| + 1
    case DataBoundary(i) => i < |b|
    case _ => true
  }

  /** The bytes of a possible delimiter that have been read and not handed over. */
  function Held(b: Bytes, st: PState): Bytes
    requires Fits(b, st)
  {
    match st
    case AlmostBoundary => [CR]
    case DataBoundary(i) => [CR, LF] + b[..i]
    case _ => []
  }

  function Step(b: Bytes, st: PState, c: Byte): (r: Result)
    requires |b| >= 1 && Fits(b, st)
    ensures r.Ok? ==> Fits(b, r.st)
    decreases if st.AlmostBoundary? || st.DataBoundary? || st.Start? then 1 else 0
  {
    match st
    case Start => Step(b, StartBoundary(0), c)
    case StartBoundary(i) =>
      if i == |b| then (if c == CR then Ok(StartBoundary(i + 1), []) else Err)
      else if i == |b| + 1 then (if c == LF then Ok(HeaderFieldStart, [PartBegin]) else Err)
      else if c == b[i] then Ok(StartBoundary(i + 1), []) else Err
    case HeaderFieldStart => FieldByte(c)
    case HeaderField => FieldByte(c)
    case HeadersAlmostDone => if c == LF then Ok(PartDataStart, []) else Err
    case HeaderValueStart =>
      if c == SPACE then Ok(HeaderValueStart, []) else ValueByte(c)
    case HeaderValue => ValueByte(c)
    case HeaderValueAlmostDone => if c == LF then Ok(HeaderFieldStart, []) else Err
    case PartDataStart =>
      if c == CR then Ok(AlmostBoundary, [HeadersComplete]) else Ok(PartData, [HeadersComplete, Data(c)])
    case PartData => DataByte(c)
    case AlmostBoundary =>
      if c == LF then Ok(DataBoundary(0), []) else Prefixed(DataOf(Held(b, st)), DataByte(c))
    case DataBoundary(i) =>
      if c != b[i] then Prefixed(DataOf(Held(b, st)), DataByte(c))
      else if i + 1 == |b| then Ok(AlmostEnd, [PartEnd])
      else Ok(DataBoundary(i + 1), [])
    case AlmostEnd =>
      if c == HYPHEN then Ok(FinalHyphen, []) else if c == CR then Ok(PartDataEnd, []) else Err
    case FinalHyphen => if c == HYPHEN then Ok(End, [BodyEnd]) else Err
    case PartDataEnd => if c == LF then Ok(HeaderFieldStart, [PartBegin]) else Err
    case End => Ok(End, [])
  }

  function FieldByte(c: Byte): Result {
    if c == CR then Ok(HeadersAlmostDone, [])
    else if c == COLON then Ok(HeaderValueStart, [NameEnd])
    else if NameByte(c) then Ok(HeaderField, [Field(c)])
    else Err
  }

  function ValueByte(c: Byte): Result {
    if c == CR then Ok(HeaderValueAlmostDone, []) else Ok(HeaderValue, [Val(c)])
  }

  function DataByte(c: Byte): Result {
    if c == CR then Ok(AlmostBoundary, []) else Ok(PartData, [Data(c)])
  }

  function Prefixed(items: seq<Item>, r: Result): Result {
    if r.Ok? then Ok(r.st, items + r.items) else r
  }

  /** What a parser in state st makes of the bytes s: it stops at the first byte it cannot take. */
  datatype Outcome = Outcome(items: seq<Item>, st: PState, used: nat)

  function Run(b: Bytes, st: PState, s: Bytes): (r: Outcome)
    requires |b| >= 1 && Fits(b, st)
    ensures Fits(b, r.st) && r.used <= |s|
    decreases |s|
  {
    if s == [] then Outcome([], st, 0)
    else
      var r := Step(b, st, s[0]);
      if r.Err? then Outcome([], st, 0)
      else
        var t := Run(b, r.st, s[1..]);
        Outcome(r.items + t.items, t.st, t.used + 1)
  }

  /** Handing over the bytes in two pieces is handing them over at once. */
  lemma {:induction false} RunSplits(b: Bytes, st: PState, s: Bytes, t: Bytes)
    requires |b| >= 1 && Fits(b, st)
    ensures var r := Run(b, st, s);
      if r.used < |s| then Run(b, st, s + t) == r
      else
        var q := Run(b, r.st, t);
        Run(b, st, s + t) == Outcome(r.items + q.items, q.st, |s| + q.used)
    decreases |s|
  {
    if s == [] {
      assert s + t == t;
      var q := Run(b, st, t);
      assert [] + q.items == q.items;
    } else {
      assert (s + t)[1..] == s[1..] + t;
      hide Run;
      RunStep(b, st, s);
      RunStep(b, st, s + t);
      var r := Step(b, st, s[0]);
      if r.Ok? {
        RunSplits(b, r.st, s[1..], t);
        var r1 := Run(b, r.st, s[1..]);
        if r1.used == |s| - 1 { Associative(r.items, r1.items, Run(b, r1.st, t).items); }
      }
    }
  }

  lemma RunStep(b: Bytes, st: PState, s: Bytes)
    requires |b| >= 1 && Fits(b, st) && s != []
    ensures var r := Step(b, st, s[0]);
      if r.Err? then Run(b, st, s) == Outcome([], st, 0)
      else var t := Run(b, r.st, s[1..]); Run(b, st, s) == Outcome(r.items + t.items, t.st, t.used + 1)
  {
  }

  /**
    What a parser in state st hands over for one buffer s. Unlike Run it keeps the bytes of a
    header name (names) until the colon or the end of the buffer, and drops them when the line
    ends without a colon.
    */
  function Handed(b: Bytes, st: PState, s: Bytes, names: Bytes): seq<Item>
    requires |b| >= 1 && Fits(b, st)
    decreases |s|
  {
    if s == [] then FieldsOf(names)
    else
      var r := Step(b, st, s[0]);
      if r.Err? then []
      else if !InName(st) then r.items + Handed(b, r.st, s[1..], [])
      else if s[0] == CR then Handed(b, r.st, s[1..], [])
      else if s[0] == COLON then FieldsOf(names) + [NameEnd] + Handed(b, r.st, s[1..], [])
      else Handed(b, r.st, s[1..], names + [s[0]])
  }
}
