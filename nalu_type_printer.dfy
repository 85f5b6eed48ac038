/**
 * The NAL type printer of test.cpp: datagrams of an Annex B stream are
 * accumulated in a buffer, and every pass over it prints the type of each
 * unit it meets. Unlike the streamer, a pass walks an iterator through the
 * buffer instead of erasing it, and trims only in front of a unit that is
 * still open; that unit is scanned again with the next datagram.
 */
module NaluTypePrinter {
  import opened AnnexB
  import opened LengthPrefix
  import opened Buffers

  /** A buffer longer than this after a pass is cleared (test.cpp:68). */
  const MaxBufferSize: nat := 1024 * 1024

  /** What a pass prints, in order, and the buffer it leaves behind. */
  datatype Pass = Pass(types: seq<byte>, buffer: seq<byte>)

  /**
   * The unit `[start, end)` opened by a `codeLen`-byte start code is printed
   * only when it is longer than its start code (test.cpp:55-59).
   */
  function Report(buf: seq<byte>, start: nat, codeLen: nat, end: nat): (r: seq<byte>)
    requires start + codeLen <= end <= |buf|
    ensures |r| <= 1
    ensures r != [] <==> end > start + codeLen
    ensures r != [] ==> r[0] == NalType(buf[start + codeLen]) && r[0] < 32
  {
    if end - start > codeLen then [NalType(buf[start + codeLen])] else []
  }

  /**
   * The inner loop of test.cpp:43-67 from the iterator position `begin`:
   * stop on no start code or one that ends the buffer, print and move on to
   * the closing start code of a complete unit, and print an open unit and
   * erase the buffer in front of it.
   */
  function PrintPass(buf: seq<byte>, begin: nat): Pass
    requires begin <= |buf|
    decreases |buf| - begin
  {
    match ScanFrom(buf, begin)
    case NoStartCode => Pass([], buf)
    case StartCodeAtEnd(_, _) => Pass([], buf)
    case Unterminated(start, codeLen) => Pass(Report(buf, start, codeLen, |buf|), buf[start..])
    case Complete(start, codeLen, next) =>
      var rest := PrintPass(buf, next);
      Pass(Report(buf, start, codeLen, next) + rest.types, rest.buffer)
  }

  /**
   * One iteration of the receive loop of test.cpp:35-69 for a datagram
   * `chunk`: an empty read is skipped, otherwise the chunk is appended, a
   * pass runs from the front, and a buffer over 1 MiB is cleared.
   */
  function Receive(buffer: seq<byte>, chunk: seq<byte>): Pass {
    if chunk == [] then Pass([], buffer)
    else
      var p := PrintPass(buffer + chunk, 0);
      Pass(p.types, if |p.buffer| > MaxBufferSize then [] else p.buffer)
  }

  /** The buffer starts with a start code whose unit has at least one payload byte. */
  predicate OpensUnit(b: seq<byte>) {
    AnyCodeAt(b, 0) && StartCodeLength(b) < |b|
  }

  /** A pass only ever erases a prefix of the buffer. */
  lemma {:induction false} PassKeepsSuffix(buf: seq<byte>, begin: nat)
    requires begin <= |buf|
    ensures IsSuffix(PrintPass(buf, begin).buffer, buf)
    decreases |buf| - begin
  {
    var r := PrintPass(buf, begin);
    match ScanFrom(buf, begin)
    case NoStartCode =>
      assert r.buffer == buf[0..];
    case StartCodeAtEnd(_, _) =>
      assert r.buffer == buf[0..];
    case Unterminated(start, codeLen) =>
      assert r.buffer == buf[start..];
    case Complete(start, codeLen, next) =>
      PassKeepsSuffix(buf, next);
      assert r.buffer == PrintPass(buf, next).buffer;
  }

  /** The pass from `begin` stops at an open unit, one no later start code closes. */
  predicate EndsOpen(buf: seq<byte>, begin: nat)
    requires begin <= |buf|
    decreases |buf| - begin
  {
    match ScanFrom(buf, begin)
    case Unterminated(_, _) => true
    case Complete(_, _, next) => EndsOpen(buf, next)
    case _ => false
  }

  /** A pass that does not stop at an open unit leaves the buffer as it was. */
  lemma {:induction false} PassKeepsClosedBuffer(buf: seq<byte>, begin: nat)
    requires begin <= |buf|
    ensures !EndsOpen(buf, begin) ==> PrintPass(buf, begin).buffer == buf
    decreases |buf| - begin
  {
    match ScanFrom(buf, begin)
    case Complete(start, codeLen, next) =>
      PassKeepsClosedBuffer(buf, next);
    case _ =>
  }

  /** The last unit of a pass is open: the pass prints its type and trims up to it. */
  lemma OpenUnitPrinted(buf: seq<byte>, begin: nat)
    requires begin <= |buf| && ScanFrom(buf, begin).Unterminated?
    ensures var r := PrintPass(buf, begin);
            && OpensUnit(r.buffer)
            && r.types == [NalType(r.buffer[StartCodeLength(r.buffer)])]
  {
    var scan := ScanFrom(buf, begin);
    var b := buf[scan.start..];
    UnitStartCode(buf, begin, scan.start, scan.codeLen, |buf|);
    assert buf[scan.start..|buf|] == b;
    assert PrintPass(buf, begin) == Pass([NalType(buf[scan.start + scan.codeLen])], b);
    assert b[scan.codeLen] == buf[scan.start + scan.codeLen];
  }

  /**
   * After a closed unit the pass goes on from the start code that closes it:
   * it leaves the same buffer and ends with the same types as the pass from
   * there.
   */
  lemma ClosedUnitThenRest(buf: seq<byte>, begin: nat)
    requires begin <= |buf| && ScanFrom(buf, begin).Complete?
    ensures var next := ScanFrom(buf, begin).next;
            var r, rest := PrintPass(buf, begin), PrintPass(buf, next);
            && r.buffer == rest.buffer
            && EndsOpen(buf, begin) == EndsOpen(buf, next)
            && (rest.types != [] ==> r.types != [] && r.types[|r.types| - 1] == rest.types[|rest.types| - 1])
  {
    var scan := ScanFrom(buf, begin);
    var r, rest := PrintPass(buf, begin), PrintPass(buf, scan.next);
    var report := Report(buf, scan.start, scan.codeLen, scan.next);
    assert r == Pass(report + rest.types, rest.buffer);
    if rest.types != [] {
      LastOfConcat(report, rest.types);
    }
  }

  /**
   * A pass that stops at an open unit leaves the buffer beginning at that
   * unit's start code, and the unit's type is the last one printed.
   */
  lemma {:induction false} PassTrimsToOpenUnit(buf: seq<byte>, begin: nat)
    requires begin <= |buf|
    ensures var r := PrintPass(buf, begin);
            EndsOpen(buf, begin) ==>
              && OpensUnit(r.buffer)
              && r.types != []
              && r.types[|r.types| - 1] == NalType(r.buffer[StartCodeLength(r.buffer)])
    decreases |buf| - begin
  {
    var r := PrintPass(buf, begin);
    match ScanFrom(buf, begin)
    case NoStartCode =>
    case StartCodeAtEnd(_, _) =>
    case Unterminated(start, codeLen) =>
      OpenUnitPrinted(buf, begin);
    case Complete(start, codeLen, next) =>
      PassTrimsToOpenUnit(buf, next);
      ClosedUnitThenRest(buf, begin);
  }

  /**
   * The open unit a pass keeps is scanned again once more bytes arrive: the
   * next pass finds its start code at the front, with the same length, so
   * the unit's type byte is read again (test.cpp:41, 62-65).
   */
  lemma RescanOpenUnit(b: seq<byte>, chunk: seq<byte>)
    requires OpensUnit(b)
    ensures var s := ScanFrom(b + chunk, 0);
            && (s.Unterminated? || s.Complete?)
            && s.start == 0
            && s.codeLen == StartCodeLength(b)
            && (b + chunk)[s.codeLen] == b[StartCodeLength(b)]
  {
    var s := b + chunk;
    assert Short.At(b, 0) ==> Short.At(s, 0);
    assert Long.At(b, 0) ==> Long.At(s, 0);
    assert Long.At(s, 0) ==> Long.At(b, 0);
    var scan := ScanFrom(s, 0);
    assert scan.start == 0;
  }

  /**
   * The next datagram prints the open unit's type again, first, unless the
   * bytes it brings complete a start code right where the unit's payload
   * begins (the unit then turns out to be empty).
   */
  lemma OpenUnitReprinted(b: seq<byte>, chunk: seq<byte>)
    requires OpensUnit(b) && chunk != []
    requires !AnyCodeAt(b + chunk, StartCodeLength(b))
    ensures var types := Receive(b, chunk).types;
            types != [] && types[0] == NalType(b[StartCodeLength(b)])
  {
    var s := b + chunk;
    RescanOpenUnit(b, chunk);
    var scan := ScanFrom(s, 0);
    var end := if scan.Complete? then scan.next else |s|;
    var report := Report(s, 0, scan.codeLen, end);
    assert report == [NalType(b[StartCodeLength(b)])];
    if scan.Complete? {
      assert PrintPass(s, 0).types == report + PrintPass(s, scan.next).types;
    } else {
      assert PrintPass(s, 0).types == report;
    }
  }

  /** The low five bits of the two payload bytes of the example below. */
  lemma ExampleTypes()
    ensures NalType(0x41) == 1 && NalType(0x42) == 2
  {
  }

  /** `00 00 01 41 00 00 01`: one closed unit of type 1, then a start code that ends the buffer. */
  lemma ScanTrailingCode(u: seq<byte>)
    requires u == [0, 0, 1, 0x41, 0, 0, 1]
    ensures ScanFrom(u, 0) == Complete(0, 3, 4)
    ensures ScanFrom(u, 4) == StartCodeAtEnd(4, 3)
  {
    assert Short.At(u, 0) && !Long.At(u, 0) && !AnyCodeAt(u, 3) && Short.At(u, 4);
    var r := ScanFrom(u, 0);
    assert r.start == 0 && r.codeLen == 3;
    assert r.Complete? && r.next == 4;
    var q := ScanFrom(u, 4);
    assert q.start == 4 && q.codeLen == 3;
  }

  /** The same bytes followed by `42`: the second unit is now open. */
  lemma ScanTrailingCodeExtended(v: seq<byte>)
    requires v == [0, 0, 1, 0x41, 0, 0, 1, 0x42]
    ensures ScanFrom(v, 0) == Complete(0, 3, 4)
    ensures ScanFrom(v, 4) == Unterminated(4, 3)
  {
    assert Short.At(v, 0) && !Long.At(v, 0) && !AnyCodeAt(v, 3) && Short.At(v, 4);
    assert !Long.At(v, 4) && !AnyCodeAt(v, 7);
    var r := ScanFrom(v, 0);
    assert r.start == 0 && r.codeLen == 3;
    assert r.Complete? && r.next == 4;
    var q := ScanFrom(v, 4);
    assert q.start == 4 && q.codeLen == 3;
  }

  lemma PassTrailingCode(u: seq<byte>)
    requires u == [0, 0, 1, 0x41, 0, 0, 1]
    ensures PrintPass(u, 0) == Pass([1], u)
  {
    ExampleTypes();
    ScanTrailingCode(u);
    assert PrintPass(u, 4) == Pass([], u);
    assert Report(u, 0, 3, 4) == [1];
  }

  lemma PassTrailingCodeExtended(v: seq<byte>)
    requires v == [0, 0, 1, 0x41, 0, 0, 1, 0x42]
    ensures PrintPass(v, 0).types == [1, 2]
  {
    ExampleTypes();
    ScanTrailingCodeExtended(v);
    assert Report(v, 0, 3, 4) == [1];
    assert Report(v, 4, 3, |v|) == [2];
    assert PrintPass(v, 4).types == [2];
    assert PrintPass(v, 0).types == [1] + [2];
  }

  /**
   * A pass that stops at a start code ending the buffer trims nothing
   * (test.cpp:51), so the units before that code are printed again with
   * the next datagram: `00 00 01 41 00 00 01` prints type 1 and is kept
   * whole, and a following datagram `42` prints type 1 again, then type 2.
   */
  lemma ClosedUnitsReprinted(u: seq<byte>, chunk: seq<byte>)
    requires u == [0, 0, 1, 0x41, 0, 0, 1] && chunk == [0x42]
    ensures Receive([], u) == Pass([1], u)
    ensures Receive(u, chunk).types == [1, 2]
  {
    assert Receive([], u) == Pass([1], u) by {
      assert [] + u == u;
      PassTrailingCode(u);
    }
    assert Receive(u, chunk).types == [1, 2] by {
      PassTrailingCodeExtended(u + chunk);
    }
  }

  /** The printer's state between datagrams. */
  class Printer {
    /** The accumulation buffer of test.cpp:34. */
    var buffer: seq<byte>
    /** Every type printed so far, in order: what the program writes to standard output. */
    var printed: seq<byte>

    constructor ()
      ensures buffer == [] && printed == []
    {
      buffer := [];
      printed := [];
    }

    /** One iteration of the receive loop (test.cpp:37-68) for the datagram `chunk`. */
    method OnChunk(chunk: seq<byte>)
      modifies this
      ensures printed == old(printed) + Receive(old(buffer), chunk).types
      ensures buffer == Receive(old(buffer), chunk).buffer
    {
      if chunk == [] {
        return;
      }
      buffer := buffer + chunk;
      PrintUnits();
      if |buffer| > MaxBufferSize {
        buffer := [];
      }
    }

    /**
     * The inner loop of test.cpp:43-67: print the type of every unit in the
     * buffer and trim it in front of a unit that is still open.
     */
    method PrintUnits()
      modifies this
      ensures printed == old(printed) + PrintPass(old(buffer), 0).types
      ensures buffer == PrintPass(old(buffer), 0).buffer
    {
      var buf := buffer;
      ghost var target := PrintPass(buf, 0);
      var begin := 0;
      while true
        invariant begin <= |buf| && buffer == buf
        invariant printed + PrintPass(buf, begin).types == old(printed) + target.types
        invariant PrintPass(buf, begin).buffer == target.buffer
        decreases |buf| - begin
      {
        var scan := ScanFrom(buf, begin);
        if scan.NoStartCode? || scan.StartCodeAtEnd? {
          break;
        }
        var naluStart, startCodeLen := scan.start, scan.codeLen;
        var nextNalu := if scan.Complete? then scan.next else |buf|;
        ghost var before := printed;
        if nextNalu - naluStart > startCodeLen {
          printed := printed + [NalType(buf[naluStart + startCodeLen])];
        }
        ghost var report := Report(buf, naluStart, startCodeLen, nextNalu);
        assert printed == before + report;
        if scan.Complete? {
          ghost var rest := PrintPass(buf, nextNalu);
          assert PrintPass(buf, begin) == Pass(report + rest.types, rest.buffer);
          ConcatAssoc(before, report, rest.types);
          begin := nextNalu;
        } else {
          if naluStart != 0 {
            buffer := buf[naluStart..];
          }
          break;
        }
      }
    }
  }
}
