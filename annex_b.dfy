/**
 * Start-code scanning of the Annex B byte stream format (section B.2 of
 * ITU-T H.264): the searches that both the streamer's receive loop
 * (UdpH264Source.cpp) and the NAL type printer (test.cpp) run over their
 * accumulation buffers.
 */
module AnnexB {

  /** An octet, `uint8_t` in the source. */
  newtype byte = x: int | 0 <= x < 0x100

  /** The two start-code prefixes: `00 00 01` and `00 00 00 01`. */
  datatype StartCode = Short | Long {

    function Length(): nat {
      if Short? then 3 else 4
    }

    function Bytes(): (b: seq<byte>)
      ensures |b| == Length()
    {
      if Short? then [0, 0, 1] else [0, 0, 0, 1]
    }

    /** The code occurs in `s` beginning at index `i`. */
    predicate At(s: seq<byte>, i: nat) {
      match this
      case Short => i + 3 <= |s| && s[i] == 0 && s[i + 1] == 0 && s[i + 2] == 1
      case Long => i + 4 <= |s| && s[i] == 0 && s[i + 1] == 0 && s[i + 2] == 0 && s[i + 3] == 1
    }
  }

  /** Either start code begins at index `i`. */
  predicate AnyCodeAt(s: seq<byte>, i: nat) {
    Short.At(s, i) || Long.At(s, i)
  }

  /**
   * `nal_unit_type`: the low five bits of the first payload byte (Table 7-1
   * of ITU-T H.264), that is `b & 0x1F`, the byte modulo 32.
   */
  function NalType(b: byte): (t: byte)
    ensures t < 32
  {
    b % 0x20
  }

  /**
   * `std::search` for one start code in `s[from..]`: the leftmost position at
   * which it occurs, or `|s|` (the end iterator) when it does not occur.
   */
  function Search(s: seq<byte>, code: StartCode, from: nat): (p: nat)
    requires from <= |s|
    ensures from <= p <= |s|
    ensures p < |s| ==> code.At(s, p)
    ensures forall i :: from <= i < p ==> !code.At(s, i)
    decreases |s| - from
  {
    if from == |s| || code.At(s, from) then from else Search(s, code, from + 1)
  }

  /** A start code that opens a unit: where it begins and how many bytes it has. */
  datatype Found = Found(pos: nat, len: nat)

  /** `start` is the leftmost start code at or after `from`, and `len` is the length of the code found there. */
  ghost predicate Leftmost(s: seq<byte>, from: nat, start: nat, len: nat) {
    && from <= start < |s|
    && (forall i :: from <= i < start ==> !AnyCodeAt(s, i))
    && ((len == 4 && Long.At(s, start)) || (len == 3 && Short.At(s, start) && !Long.At(s, start)))
  }

  /**
   * Both searches, then the leftmost of the two results, with its length
   * (UdpH264Source.cpp:55-58, test.cpp:44-47). A long code at `p` contains a
   * short one at `p + 1`, so the long code wins whenever it is present.
   */
  function FindStartCode(s: seq<byte>, from: nat): (r: Found)
    requires from <= |s|
    ensures from <= r.pos <= |s|
    ensures r.pos < |s| ==> Leftmost(s, from, r.pos, r.len)
    ensures r.pos == |s| ==> forall i :: from <= i < |s| ==> !AnyCodeAt(s, i)
  {
    var p4 := Search(s, Long, from);
    var p3 := Search(s, Short, from);
    var pos := if p4 != |s| && (p3 == |s| || p4 < p3) then p4 else p3;
    assert p4 < |s| ==> Short.At(s, p4 + 1);
    Found(pos, if pos == p4 then 4 else 3)
  }

  /**
   * The outcome of one scan step: no start code; a start code that ends the
   * buffer; a unit whose closing start code has not arrived yet; or a
   * complete unit `[start, next)` whose payload is `[start + codeLen, next)`.
   */
  datatype Scan =
    | NoStartCode
    | StartCodeAtEnd(start: nat, codeLen: nat)
    | Unterminated(start: nat, codeLen: nat)
    | Complete(start: nat, codeLen: nat, next: nat)
  {
    function DataStart(): nat
      requires !NoStartCode?
    {
      start + codeLen
    }
  }

  /**
   * One step of the scan loop from `from` (UdpH264Source.cpp:55-65,
   * test.cpp:44-53): find the opening start code, check that payload bytes
   * follow it, then search for the next start code after them.
   */
  function ScanFrom(s: seq<byte>, from: nat): (r: Scan)
    requires from <= |s|
    ensures r.NoStartCode? <==> forall i :: from <= i < |s| ==> !AnyCodeAt(s, i)
    ensures !r.NoStartCode? ==> Leftmost(s, from, r.start, r.codeLen)
    ensures r.StartCodeAtEnd? <==> !r.NoStartCode? && r.DataStart() == |s|
    ensures r.Unterminated? ==>
              r.DataStart() < |s| && forall i :: r.DataStart() <= i < |s| ==> !AnyCodeAt(s, i)
    ensures r.Complete? ==>
              && r.DataStart() <= r.next < |s|
              && AnyCodeAt(s, r.next)
              && (forall i :: r.DataStart() <= i < r.next ==> !AnyCodeAt(s, i))
  {
    var f := FindStartCode(s, from);
    assert f.pos < |s| ==> AnyCodeAt(s, f.pos);
    if f.pos == |s| then NoStartCode
    else if f.pos + f.len >= |s| then StartCodeAtEnd(f.pos, f.len)
    else
      var next := FindStartCode(s, f.pos + f.len).pos;
      if next == |s| then Unterminated(f.pos, f.len) else Complete(f.pos, f.len, next)
  }
}
