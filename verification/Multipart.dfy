/**
  multipart_parser_execute, http/multipart_parser.c:113-308: a state machine that is fed a body
  in any number of pieces and hands runs of bytes to callbacks.
  */
module Multipart {

  import opened Basics
  import opened MultipartSpec
  import opened MultipartCuts

  /** The bytes from mark to i of the current buffer that are still to be handed over. */
  function Pending(st: PState, buf: Bytes, mark: nat, i: nat): seq<Item>
    requires mark <= i <= |buf|
  {
    if i == |buf| then []
    else match st
      case HeaderValue => ValuesOf(buf[mark..i])
      case PartData => DataOf(buf[mark..i])
      case _ => []
  }

  /** The bytes of a header name that may still be handed over. */
  function Names(st: PState, buf: Bytes, mark: nat, i: nat): Bytes
    requires mark <= i <= |buf|
  {
    if i < |buf| && st.HeaderField? then buf[mark..i] else []
  }

  /** All that will have been handed over when the buffer is used up. */
  function Total(b: Bytes, st: PState, calls: seq<Item>, buf: Bytes, mark: nat, i: nat): seq<Item>
    requires |b| >= 1 && Fits(b, st) && mark <= i <= |buf|
  {
    calls + Pending(st, buf, mark, i) + Handed(b, st, buf[i..], Names(st, buf, mark, i))
  }

  /** The parser still has to do what it had to do before. */
  predicate Onward(b: Bytes, buf: Bytes, st0: PState, calls0: seq<Item>, mark0: nat, i0: nat,
                   st: PState, calls: seq<Item>, mark: nat, i: nat)
    requires |b| >= 1 && Fits(b, st0) && Fits(b, st) && mark0 <= i0 <= |buf| && mark <= i <= |buf|
  {
    var r0, r := Run(b, st0, buf[i0..]), Run(b, st, buf[i..]);
    r.st == r0.st && i + r.used == i0 + r0.used &&
    Total(b, st, calls, buf, mark, i) == Total(b, st0, calls0, buf, mark0, i0)
  }

  lemma RunFrom(b: Bytes, st: PState, buf: Bytes, i: nat)
    requires |b| >= 1 && Fits(b, st) && i < |buf|
    ensures var r := Step(b, st, buf[i]); var q := Run(b, st, buf[i..]);
      if r.Err? then q == Outcome([], st, 0)
      else var t := Run(b, r.st, buf[i + 1..]); q == Outcome(r.items + t.items, t.st, t.used + 1)
  {
    assert buf[i..][1..] == buf[i + 1..] && buf[i..][0] == buf[i];
  }

  lemma HandedFrom(b: Bytes, st: PState, buf: Bytes, i: nat, names: Bytes)
    requires |b| >= 1 && Fits(b, st) && i < |buf|
    ensures var c := buf[i]; var r := Step(b, st, c); var h := Handed(b, st, buf[i..], names);
      if r.Err? then h == []
      else if !InName(st) then h == r.items + Handed(b, r.st, buf[i + 1..], [])
      else if c == CR then h == Handed(b, r.st, buf[i + 1..], [])
      else if c == COLON then h == FieldsOf(names) + [NameEnd] + Handed(b, r.st, buf[i + 1..], [])
      else h == Handed(b, r.st, buf[i + 1..], names + [c])
  {
    assert buf[i..][1..] == buf[i + 1..] && buf[i..][0] == buf[i];
  }

  lemma Regroup<T>(c: seq<T>, p: seq<T>, q: seq<T>, o: seq<T>, n: seq<T>, t: seq<T>)
    requires p + q == o + n
    ensures c + p + (q + t) == c + o + n + t
  {
    assert c + p + (q + t) == c + (p + q) + t;
    assert c + o + n + t == c + (o + n) + t;
  }

  /** One byte taken outside a header name, with the items `out` handed over now. */
  lemma Taken(b: Bytes, buf: Bytes, st0: PState, calls0: seq<Item>, mark0: nat, i: nat,
              out: seq<Item>, mark: nat)
    requires |b| >= 1 && Fits(b, st0) && mark0 <= i < |buf| && mark <= i + 1
    requires !InName(st0)
    requires var r := Step(b, st0, buf[i]);
      r.Ok? && !r.st.HeaderField? && Pending(st0, buf, mark0, i) + r.items == out + Pending(r.st, buf, mark, i + 1)
    ensures var r := Step(b, st0, buf[i]);
      Onward(b, buf, st0, calls0, mark0, i, r.st, calls0 + out, mark, i + 1)
  {
    hide Run, Step, Pending, Handed;
    var r := Step(b, st0, buf[i]);
    RunFrom(b, st0, buf, i);
    HandedFrom(b, st0, buf, i, []);
    Regroup(calls0, Pending(st0, buf, mark0, i), r.items, out, Pending(r.st, buf, mark, i + 1),
            Handed(b, r.st, buf[i + 1..], []));
  }

  /** One byte taken in a header name. */
  lemma NameTaken(b: Bytes, buf: Bytes, st0: PState, calls0: seq<Item>, mark0: nat, i: nat, mark: nat, calls: seq<Item>)
    requires |b| >= 1 && mark0 <= i < |buf| && Fits(b, st0)
    requires InName(st0) && mark == if st0.HeaderField? then mark0 else i
    requires Step(b, st0, buf[i]).Ok?
    requires calls == calls0 +
      if buf[i] == COLON then FieldsOf(buf[mark..i]) + [NameEnd]
      else if buf[i] != CR && i + 1 == |buf| then FieldsOf(buf[mark..i + 1])
      else []
    ensures Onward(b, buf, st0, calls0, mark0, i, Step(b, st0, buf[i]).st, calls, mark, i + 1)
  {
    var st := Step(b, st0, buf[i]).st;
    assert Names(st0, buf, mark0, i) == buf[mark..i];
    assert buf[mark..i + 1] == buf[mark..i] + [buf[i]];
    assert i + 1 == |buf| ==> Handed(b, st, buf[i + 1..], buf[mark..i + 1]) == FieldsOf(buf[mark..i + 1]);
    assert i + 1 == |buf| ==> Handed(b, st, buf[i + 1..], []) == [];
    assert buf[i] == CR || buf[i] == COLON || st.HeaderField?;
    hide Run, Step, Handed, FieldsOf;
    RunFrom(b, st0, buf, i);
    HandedFrom(b, st0, buf, i, buf[mark..i]);
    assert calls0 + [] == calls0 && calls + [] == calls;
    Associative(calls0, FieldsOf(buf[mark..i]) + [NameEnd], Handed(b, st, buf[i + 1..], []));
    assert calls0 + FieldsOf(buf[mark..i + 1]) + [] == calls0 + FieldsOf(buf[mark..i + 1]);
  }

  /** One byte taken in the data of a part: from is where the bytes of data not handed over begin. */
  lemma DataTaken(b: Bytes, buf: Bytes, st0: PState, calls0: seq<Item>, mark0: nat, i: nat,
                  from: nat, mark: nat, calls: seq<Item>)
    requires |b| >= 1 && mark0 <= i < |buf| && (st0.PartDataStart? || st0.PartData?)
    requires from == (if st0.PartData? then mark0 else i) && mark == (if buf[i] == CR then i else from)
    requires calls == calls0 + (if st0.PartDataStart? then [HeadersComplete] else []) +
      if buf[i] == CR then DataOf(buf[from..i])
      else if i + 1 == |buf| then DataOf(buf[from..i + 1])
      else []
    ensures Onward(b, buf, st0, calls0, mark0, i, Step(b, st0, buf[i]).st, calls, mark, i + 1)
  {
    hide Onward;
    var start := if st0.PartDataStart? then [HeadersComplete] else [];
    var part := if buf[i] == CR then DataOf(buf[from..i])
      else if i + 1 == |buf| then DataOf(buf[from..i + 1])
      else [];
    assert buf[from..i + 1] == buf[from..i] + [buf[i]];
    Associative(calls0, start, part);
    Taken(b, buf, st0, calls0, mark0, i, start + part, mark);
  }

  /** A byte that breaks off a partial delimiter: what was held back is handed over, and the byte is looked at again. */
  lemma HandedBack(b: Bytes, buf: Bytes, st0: PState, calls0: seq<Item>, mark0: nat, i: nat)
    requires |b| >= 1 && Fits(b, st0) && mark0 <= i < |buf|
    requires (st0.AlmostBoundary? && buf[i] != LF) || (st0.DataBoundary? && buf[i] != b[st0.index])
    ensures Onward(b, buf, st0, calls0, mark0, i, PartData, calls0 + DataOf(Held(b, st0)), i, i)
  {
    var h := DataOf(Held(b, st0));
    assert Step(b, st0, buf[i]) == Prefixed(h, Step(b, PartData, buf[i]));
    assert Step(b, PartData, buf[i]).Ok?;
    assert DataOf(buf[i..i]) == [];
    hide Run, Step, Handed, DataOf, Held;
    RunFrom(b, st0, buf, i);
    RunFrom(b, PartData, buf, i);
    HandedFrom(b, st0, buf, i, []);
    HandedFrom(b, PartData, buf, i, []);
    var r := Step(b, PartData, buf[i]);
    var t := Handed(b, r.st, buf[i + 1..], []);
    Regroup(calls0, [], h, h, [], r.items + t);
    Associative(h, r.items, t);
  }

  class Parser {
    const boundary: Bytes
    const lookbehind: array<Byte>
    var state: PState
    var calls: seq<Item>

    /** The buffer holds the bytes of the delimiter that have been seen and not handed over. */
    ghost predicate Valid()
      reads this, lookbehind
    {
      |boundary| >= 1 && Fits(boundary, state) && lookbehind.Length == |boundary| + 8 &&
      (state.AlmostBoundary? ==> lookbehind[0] == CR) &&
      (state.DataBoundary? ==> lookbehind[..2 + state.index] == Held(boundary, state))
    }

    /** multipart_parser_init, for a boundary that is not empty. */
    constructor (b: Bytes)
      requires |b| >= 1
      ensures Valid() && boundary == b && state == Start && calls == [] && fresh(lookbehind)
    {
      boundary := b;
      lookbehind := new Byte[|b| + 8];
      state := Start;
      calls := [];
    }

    /** The states between the parts: no bytes are waiting to be handed over. */
    method TakeFraming(buf: Bytes, i: nat, mark: nat) returns (ok: bool)
      requires Valid() && mark <= i < |buf|
      requires state.Start? || state.StartBoundary? || state.HeadersAlmostDone? || state.HeaderValueAlmostDone? ||
               state.AlmostEnd? || state.FinalHyphen? || state.PartDataEnd? || state.End?
      modifies `state, `calls
      ensures ok == Step(boundary, old(state), buf[i]).Ok?
      ensures ok ==> Valid() && Onward(boundary, buf, old(state), old(calls), mark, i, state, calls, mark, i + 1)
      ensures !ok ==> calls == old(calls)
    {
      hide Onward, Run, Handed;
      ok := true;
      ghost var st0, calls0 := state, calls;
      var c := buf[i];
      if state.Start? { state := StartBoundary(0); }
      match state {
        case StartBoundary(index) =>
          if index == |boundary| {
            if c != CR { return false; }
            state := StartBoundary(index + 1);
          } else if index == |boundary| + 1 {
            if c != LF { return false; }
            calls := calls + [PartBegin];
            state := HeaderFieldStart;
          } else {
            if c != boundary[index] { return false; }
            state := StartBoundary(index + 1);
          }
        case HeadersAlmostDone =>
          if c != LF { return false; }
          state := PartDataStart;
        case HeaderValueAlmostDone =>
          if c != LF { return false; }
          state := HeaderFieldStart;
        case AlmostEnd =>
          if c == HYPHEN { state := FinalHyphen; }
          else if c == CR { state := PartDataEnd; }
          else { return false; }
        case FinalHyphen =>
          if c != HYPHEN { return false; }
          calls := calls + [BodyEnd];
          state := End;
        case PartDataEnd =>
          if c != LF { return false; }
          state := HeaderFieldStart;
          calls := calls + [PartBegin];
        case End =>
      }
      assert calls == calls0 + Step(boundary, st0, c).items;
      Taken(boundary, buf, st0, calls0, mark, i, Step(boundary, st0, c).items, mark);
    }

    /** The states of a header line. */
    method TakeHeader(buf: Bytes, i: nat, mark: nat) returns (ok: bool, newMark: nat)
      requires Valid() && mark <= i < |buf|
      requires state.HeaderFieldStart? || state.HeaderField? || state.HeaderValueStart? || state.HeaderValue?
      modifies `state, `calls
      ensures ok == Step(boundary, old(state), buf[i]).Ok? && newMark <= i
      ensures ok ==> Valid() && Onward(boundary, buf, old(state), old(calls), mark, i, state, calls, newMark, i + 1)
      ensures !ok ==> calls == old(calls)
    {
      hide Onward, Run, Handed;
      ghost var st0, calls0 := state, calls;
      ok, newMark := true, mark;
      var c := buf[i];
      var isLast := i == |buf| - 1;
      if state.HeaderFieldStart? || state.HeaderField? {
        if state.HeaderFieldStart? {
          newMark := i;
          state := HeaderField;
        }
        if c == CR {
          state := HeadersAlmostDone;
        } else if c == COLON {
          calls := calls + (FieldsOf(buf[newMark..i]) + [NameEnd]);
          state := HeaderValueStart;
        } else {
          if !NameByte(c) { return false, newMark; }
          if isLast { calls := calls + FieldsOf(buf[newMark..i + 1]); }
        }
      } else {
        if state.HeaderValueStart? && c != SPACE {
          newMark := i;
          state := HeaderValue;
        }
        if state.HeaderValue? {
          if c == CR {
            calls := calls + ValuesOf(buf[newMark..i]);
            state := HeaderValueAlmostDone;
          } else if isLast {
            calls := calls + ValuesOf(buf[newMark..i + 1]);
          }
        }
      }
      assert buf[newMark..i + 1] == buf[newMark..i] + [c];
      if InName(st0) {
        assert calls0 + [] == calls0;
        NameTaken(boundary, buf, st0, calls0, mark, i, newMark, calls);
      } else {
        assert calls0 <= calls;
        ghost var out := calls[|calls0|..];
        assert calls == calls0 + out;
        Taken(boundary, buf, st0, calls0, mark, i, out, newMark);
      }
    }

    /** The states of a part's data outside a possible delimiter. */
    method TakeData(buf: Bytes, i: nat, mark: nat) returns (newMark: nat)
      requires Valid() && mark <= i < |buf|
      requires state.PartDataStart? || state.PartData?
      modifies `state, `calls, lookbehind
      ensures Valid() && newMark <= i
      ensures Onward(boundary, buf, old(state), old(calls), mark, i, state, calls, newMark, i + 1)
    {
      hide Onward, Run, Handed, DataOf;
      ghost var st0, calls0 := state, calls;
      newMark := mark;
      var c := buf[i];
      var isLast := i == |buf| - 1;
      if state.PartDataStart? {
        calls := calls + [HeadersComplete];
        newMark := i;
        state := PartData;
      }
      ghost var from := newMark;
      assert calls + [] == calls && calls0 + [] == calls0;
      if c == CR {
        calls := calls + DataOf(buf[newMark..i]);
        newMark := i;
        state := AlmostBoundary;
        lookbehind[0] := CR;
      } else if isLast {
        calls := calls + DataOf(buf[newMark..i + 1]);
      }
      DataTaken(boundary, buf, st0, calls0, mark, i, from, newMark, calls);
    }

    /** The states of a possible delimiter: a byte that breaks it off is left to be taken again. */
    method TakeDelimiter(buf: Bytes, i: nat, mark: nat) returns (next: nat, newMark: nat)
      requires Valid() && mark <= i < |buf|
      requires state.AlmostBoundary? || state.DataBoundary?
      modifies `state, `calls, lookbehind
      ensures Valid() && newMark <= next
      ensures next == i + 1 || (next == i && state.PartData?)
      ensures Onward(boundary, buf, old(state), old(calls), mark, i, state, calls, newMark, next)
    {
      hide Onward, Run, Handed, DataOf;
      ghost var st0, calls0 := state, calls;
      next, newMark := i + 1, mark;
      var c := buf[i];
      if state.AlmostBoundary? {
        if c != LF {
          HandedBack(boundary, buf, st0, calls0, mark, i);
          assert lookbehind[..1] == Held(boundary, st0);
          calls := calls + DataOf(lookbehind[..1]);
          state := PartData;
          return i, i;
        }
        state := DataBoundary(0);
        lookbehind[1] := LF;
      } else {
        var index := state.index;
        if boundary[index] != c {
          HandedBack(boundary, buf, st0, calls0, mark, i);
          calls := calls + DataOf(lookbehind[..2 + index]);
          state := PartData;
          return i, i;
        }
        lookbehind[2 + index] := c;
        if index + 1 == |boundary| {
          calls := calls + [PartEnd];
          state := AlmostEnd;
        } else {
          state := DataBoundary(index + 1);
        }
      }
      assert calls == calls0 + Step(boundary, st0, c).items;
      Taken(boundary, buf, st0, calls0, mark, i, Step(boundary, st0, c).items, mark);
    }
  
    /**
      multipart_parser_execute. It takes as many bytes as the byte-by-byte machine does and ends in
      the same state.
      */
    method Execute(buf: Bytes) returns (used: nat)
      requires Valid()
      modifies this, lookbehind
      ensures used == Run(boundary, old(state), buf).used
      ensures used == |buf| ==> Valid() && state == Run(boundary, old(state), buf).st
      ensures calls == old(calls) + Handed(boundary, old(state), buf, [])
    {
      ghost var st0, calls0 := state, calls;
      var i: nat, mark: nat := 0, 0;
      while i < |buf|
        invariant Valid() && mark <= i <= |buf|
        invariant Onward(boundary, buf, st0, calls0, 0, 0, state, calls, mark, i)
        decreases |buf| - i, if state.PartData? then 0 else 1
      {
        hide Onward, Run, Handed, Step;
        ghost var st1, calls1, mark1, i1 := state, calls, mark, i;
        if state.HeaderFieldStart? || state.HeaderField? || state.HeaderValueStart? || state.HeaderValue? {
          var ok, newMark := TakeHeader(buf, i, mark);
          if !ok {
            Stopped(boundary, buf, st0, calls0, st1, calls, mark, i);
            return i;
          }
          mark, i := newMark, i + 1;
        } else if state.PartDataStart? || state.PartData? {
          mark := TakeData(buf, i, mark);
          i := i + 1;
        } else if state.AlmostBoundary? || state.DataBoundary? {
          i, mark := TakeDelimiter(buf, i, mark);
        } else {
          var ok := TakeFraming(buf, i, mark);
          if !ok {
            Stopped(boundary, buf, st0, calls0, st1, calls, mark, i);
            return i;
          }
          i := i + 1;
        }
        OnwardTrans(boundary, buf, st0, calls0, 0, 0, st1, calls1, mark1, i1, state, calls, mark, i);
      }
      Finished(boundary, buf, st0, calls0, state, calls, mark);
      used := |buf|;
    }

    /**
      A body fed in pieces until one is refused: whether it is refused and, but for names without
      a colon, what is handed over depends on the concatenation of the pieces only.
      */
    method Feed(pieces: seq<Bytes>) returns (ok: bool)
      requires Valid()
      modifies this, lookbehind
      ensures ok == (Run(boundary, old(state), Concat(pieces)).used == |Concat(pieces)|)
      ensures ok ==> Valid() && state == Run(boundary, old(state), Concat(pieces)).st
      ensures calls == old(calls) + HandedAll(boundary, old(state), pieces)
      ensures Alike(HandedAll(boundary, old(state), pieces), Run(boundary, old(state), Concat(pieces)).items,
                    Colons(boundary, old(state), Concat(pieces)))
    {
      ghost var st0, calls0 := state, calls;
      var k := 0;
      assert pieces[0..] == pieces;
      CutsAlike(boundary, st0, pieces);
      hide Run, Handed, Alike, Colons, Concat;
      while k < |pieces|
        invariant k <= |pieces| && Valid()
        invariant calls + HandedAll(boundary, state, pieces[k..]) == calls0 + HandedAll(boundary, st0, pieces)
        invariant Ahead(boundary, st0, Concat(pieces), state, Concat(pieces[k..]))
      {
        FeedStep(boundary, st0, Concat(pieces), state, pieces[k..]);
        assert pieces[k..][1..] == pieces[k + 1..];
        ghost var h := Handed(boundary, state, pieces[k], []);
        ghost var rest := HandedAll(boundary, Run(boundary, state, pieces[k]).st, pieces[k + 1..]);
        Associative(calls, h, rest);
        var used := Execute(pieces[k]);
        if used < |pieces[k]| { return false; }
        k := k + 1;
      }
      FeedEnd(boundary, st0, Concat(pieces), state);
      assert pieces[k..] == [];
      assert calls + [] == calls;
      ok := true;
    }
  }

  /** What is left to do for rest in state st is what the whole s still needs in state st0. */
  predicate Ahead(b: Bytes, st0: PState, s: Bytes, st: PState, rest: Bytes)
    requires |b| >= 1 && Fits(b, st0) && Fits(b, st)
  {
    var r0, r := Run(b, st0, s), Run(b, st, rest);
    r0.st == r.st && |s| - r0.used == |rest| - r.used
  }

  lemma FeedStep(b: Bytes, st0: PState, s: Bytes, st: PState, pieces: seq<Bytes>)
    requires |b| >= 1 && Fits(b, st0) && Fits(b, st) && pieces != []
    requires Ahead(b, st0, s, st, Concat(pieces))
    ensures var r := Run(b, st, pieces[0]);
      if r.used < |pieces[0]| then Run(b, st0, s).used < |s|
      else Ahead(b, st0, s, r.st, Concat(pieces[1..]))
  {
    hide Run;
    RunSplits(b, st, pieces[0], Concat(pieces[1..]));
  }

  lemma FeedEnd(b: Bytes, st0: PState, s: Bytes, st: PState)
    requires |b| >= 1 && Fits(b, st0) && Fits(b, st)
    requires Ahead(b, st0, s, st, [])
    ensures Run(b, st0, s).used == |s| && Run(b, st0, s).st == st
  {
  }

  lemma OnwardTrans(b: Bytes, buf: Bytes, st0: PState, calls0: seq<Item>, mark0: nat, i0: nat,
                    st1: PState, calls1: seq<Item>, mark1: nat, i1: nat,
                    st2: PState, calls2: seq<Item>, mark2: nat, i2: nat)
    requires |b| >= 1 && Fits(b, st0) && Fits(b, st1) && Fits(b, st2)
    requires mark0 <= i0 <= |buf| && mark1 <= i1 <= |buf| && mark2 <= i2 <= |buf|
    requires Onward(b, buf, st0, calls0, mark0, i0, st1, calls1, mark1, i1)
    requires Onward(b, buf, st1, calls1, mark1, i1, st2, calls2, mark2, i2)
    ensures Onward(b, buf, st0, calls0, mark0, i0, st2, calls2, mark2, i2)
  {
    hide Total, Run;
  }

  lemma Finished(b: Bytes, buf: Bytes, st0: PState, calls0: seq<Item>, st: PState, calls: seq<Item>, mark: nat)
    requires |b| >= 1 && Fits(b, st0) && Fits(b, st) && mark <= |buf|
    requires Onward(b, buf, st0, calls0, 0, 0, st, calls, mark, |buf|)
    ensures Run(b, st0, buf).used == |buf| && Run(b, st0, buf).st == st
    ensures calls == calls0 + Handed(b, st0, buf, [])
  {
    assert buf[0..] == buf && buf[|buf|..] == [];
    assert calls + [] + [] == calls;
    assert Pending(st0, buf, 0, 0) == [] && Names(st0, buf, 0, 0) == [];
    assert calls0 + [] == calls0;
  }

  /** A byte that is refused: only the bytes of a header name are lost. */
  lemma Stopped(b: Bytes, buf: Bytes, st0: PState, calls0: seq<Item>, st: PState, calls: seq<Item>, mark: nat, i: nat)
    requires |b| >= 1 && Fits(b, st0) && Fits(b, st) && mark <= i < |buf|
    requires Onward(b, buf, st0, calls0, 0, 0, st, calls, mark, i)
    requires Step(b, st, buf[i]).Err?
    ensures Run(b, st0, buf).used == i
    ensures calls == calls0 + Handed(b, st0, buf, [])
  {
    assert buf[0..] == buf;
    assert Pending(st0, buf, 0, 0) == [] && Names(st0, buf, 0, 0) == [];
    assert calls0 + [] == calls0;
    RunFrom(b, st, buf, i);
    HandedFrom(b, st, buf, i, Names(st, buf, mark, i));
    assert Pending(st, buf, mark, i) == [];
    assert calls + [] + [] == calls;
  }
}
