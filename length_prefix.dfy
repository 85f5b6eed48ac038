/**
 * The length-prefixed framing the streamer hands to its consumer: every NAL
 * unit becomes a four-byte big-endian length followed by its payload, and
 * a sample is one or more such units one after the other.
 */
module LengthPrefix {
  import opened Wrappers
  import opened AnnexB

  const U32: nat := 0x1_0000_0000

  /**
   * `htonl(static_cast<uint32_t>(n))` laid out in memory: the four bytes of
   * `n` modulo 2^32, most significant first.
   */
  function BE32(n: nat): (r: seq<byte>)
    ensures |r| == 4
  {
    var m := n % U32;
    [(m / 0x100 / 0x100 / 0x100 % 0x100) as byte, (m / 0x100 / 0x100 % 0x100) as byte,
     (m / 0x100 % 0x100) as byte, (m % 0x100) as byte]
  }

  /** The big-endian number in the first four bytes of `b`. */
  function ReadBE32(b: seq<byte>): nat
    requires |b| >= 4
  {
    ((b[0] as nat * 0x100 + b[1] as nat) * 0x100 + b[2] as nat) * 0x100 + b[3] as nat
  }

  /** Reading back a length that fits in 32 bits gives the length that was written. */
  lemma BE32RoundTrip(n: nat)
    requires n < U32
    ensures ReadBE32(BE32(n)) == n
  {
    var q1, d := n / 0x100, n % 0x100;
    var q2, c := q1 / 0x100, q1 % 0x100;
    var a, b := q2 / 0x100, q2 % 0x100;
    assert n % U32 == n;
    assert a < 0x100;
    assert BE32(n) == [a as byte, b as byte, c as byte, d as byte];
  }

  /** One unit as it appears in a sample (UdpH264Source.cpp:95-100). */
  function Prefixed(payload: seq<byte>): (r: seq<byte>)
    ensures |r| == 4 + |payload| && r[4..] == payload
  {
    BE32(|payload|) + payload
  }

  /**
   * How many leading bytes of a retained unit are its start code: four when it
   * begins with `00 00 00 01`, else three when it begins with `00 00 01`,
   * else none (UdpH264Source.cpp:107-109, 209-214).
   */
  function StartCodeLength(b: seq<byte>): (n: nat)
    ensures n <= |b|
    ensures n == 4 <==> Long.At(b, 0)
    ensures n == 3 <==> Short.At(b, 0) && !Long.At(b, 0)
    ensures n == 0 <==> !AnyCodeAt(b, 0)
  {
    if Long.At(b, 0) then 4 else if Short.At(b, 0) then 3 else 0
  }

  /** A unit cut out of a scanned buffer begins with the start code the scan chose. */
  lemma UnitStartCode(s: seq<byte>, from: nat, start: nat, codeLen: nat, next: nat)
    requires Leftmost(s, from, start, codeLen) && start + codeLen <= next <= |s|
    ensures StartCodeLength(s[start..next]) == codeLen
  {
    var unit := s[start..next];
    if codeLen == 4 {
      assert Long.At(unit, 0);
    } else {
      assert Short.At(unit, 0);
    }
  }

  /** A retained unit without its start code. */
  function Strip(b: seq<byte>): seq<byte> {
    b[StartCodeLength(b)..]
  }

  /**
   * The `appendLengthPrefixed` helper (UdpH264Source.cpp:105-115, 206-220):
   * nothing for an empty buffer, otherwise the stripped unit behind its
   * big-endian length.
   */
  function LP(b: seq<byte>): seq<byte> {
    if b == [] then [] else Prefixed(Strip(b))
  }

  /** Stripping undoes prefixing a payload with either start code. */
  lemma StripStartCode(code: StartCode, payload: seq<byte>)
    ensures StartCodeLength(code.Bytes() + payload) == code.Length()
    ensures Strip(code.Bytes() + payload) == payload
    ensures LP(code.Bytes() + payload) == Prefixed(payload)
  {
    var b := code.Bytes() + payload;
    assert b[..code.Length()] == code.Bytes();
  }

  /** The concatenation of the prefixed units `ps`, in order. */
  function Framed(ps: seq<seq<byte>>): seq<byte> {
    if ps == [] then [] else Prefixed(ps[0]) + Framed(ps[1..])
  }

  /** Splits a sample back into its payloads; `None` when a length runs past the end. */
  function Unframe(s: seq<byte>): Option<seq<seq<byte>>>
    decreases |s|
  {
    if s == [] then Some([])
    else if |s| < 4 then None
    else
      var n := ReadBE32(s);
      if |s| - 4 < n then None
      else
        match Unframe(s[4 + n..])
        case None => None
        case Some(rest) => Some([s[4..4 + n]] + rest)
  }

  /** Every payload fits the 32-bit length field. */
  ghost predicate Fits(ps: seq<seq<byte>>) {
    forall i :: 0 <= i < |ps| ==> |ps[i]| < U32
  }

  lemma FitsAppend(a: seq<seq<byte>>, b: seq<seq<byte>>)
    requires Fits(a) && Fits(b)
    ensures Fits(a + b)
  {
    forall i | 0 <= i < |a + b| ensures |(a + b)[i]| < U32 {
      if i >= |a| {
        assert (a + b)[i] == b[i - |a|];
      }
    }
  }

  /** Framing a list of payloads is undone by splitting the result. */
  lemma {:induction false} UnframeFramed(ps: seq<seq<byte>>)
    requires Fits(ps)
    ensures Unframe(Framed(ps)) == Some(ps)
  {
    if ps != [] {
      var s := Framed(ps);
      var n := |ps[0]|;
      BE32RoundTrip(n);
      assert s[..4] == BE32(n);
      assert ReadBE32(s) == n;
      assert s[4..4 + n] == ps[0];
      assert s[4 + n..] == Framed(ps[1..]);
      UnframeFramed(ps[1..]);
      assert [ps[0]] + ps[1..] == ps;
    }
  }

  /** Framing distributes over concatenation of payload lists. */
  lemma {:induction false} FramedAppend(a: seq<seq<byte>>, b: seq<seq<byte>>)
    ensures Framed(a + b) == Framed(a) + Framed(b)
  {
    if a != [] {
      assert (a + b)[1..] == a[1..] + b;
      FramedAppend(a[1..], b);
    } else {
      assert a + b == b;
    }
  }
}
