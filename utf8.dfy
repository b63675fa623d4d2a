/**
  UTF-8 as defined by RFC 3629: the strict decoder behind Rust's
  `String::from_utf8`, which either yields the decoded text or refuses the
  whole byte sequence (no substitution of invalid sequences).
 */
module Utf8 {
  import opened Wrappers

  /** An octet, as produced on a subprocess's standard output. */
  type Byte = b: int | 0 <= b < 0x100

  /** A code point that Unicode assigns to a scalar value (surrogates excluded). */
  predicate IsScalarValue(n: int) {
    (0 <= n < 0xD800) || (0xE000 <= n < 0x11_0000)
  }

  /** UTF8-tail of section 4 of RFC 3629. */
  predicate IsTail(b: Byte) {
    0x80 <= b <= 0xBF
  }

  /** UTF8-char of section 4 of RFC 3629: the encoding of exactly one character. */
  predicate IsCharSequence(q: seq<Byte>) {
    if |q| == 1 then
      q[0] <= 0x7F
    else if |q| == 2 then
      0xC2 <= q[0] <= 0xDF && IsTail(q[1])
    else if |q| == 3 then
      ((q[0] == 0xE0 && 0xA0 <= q[1] <= 0xBF) ||
       ((0xE1 <= q[0] <= 0xEC || 0xEE <= q[0] <= 0xEF) && IsTail(q[1])) ||
       (q[0] == 0xED && 0x80 <= q[1] <= 0x9F))
      && IsTail(q[2])
    else if |q| == 4 then
      ((q[0] == 0xF0 && 0x90 <= q[1] <= 0xBF) ||
       (0xF1 <= q[0] <= 0xF3 && IsTail(q[1])) ||
       (q[0] == 0xF4 && 0x80 <= q[1] <= 0x8F))
      && IsTail(q[2]) && IsTail(q[3])
    else
      false
  }

  /** UTF8-octets of section 4 of RFC 3629: a concatenation of UTF8-chars. */
  predicate WellFormed(b: seq<Byte>)
    decreases |b|
  {
    || b == []
    || (|b| >= 1 && IsCharSequence(b[..1]) && WellFormed(b[1..]))
    || (|b| >= 2 && IsCharSequence(b[..2]) && WellFormed(b[2..]))
    || (|b| >= 3 && IsCharSequence(b[..3]) && WellFormed(b[3..]))
    || (|b| >= 4 && IsCharSequence(b[..4]) && WellFormed(b[4..]))
  }

  /** The encoding of one character, following the table of section 3 of RFC 3629. */
  function EncodeChar(c: char): (q: seq<Byte>)
    ensures IsCharSequence(q)
  {
    var n := c as int;
    if n < 0x80 then
      [n]
    else if n < 0x800 then
      TwoOctets(n);
      [0xC0 + n / 0x40, 0x80 + n % 0x40]
    else if n < 0x1_0000 then
      ThreeOctets(n);
      [0xE0 + n / 0x1000, 0x80 + (n / 0x40) % 0x40, 0x80 + n % 0x40]
    else
      FourOctets(n);
      [0xF0 + n / 0x4_0000, 0x80 + (n / 0x1000) % 0x40, 0x80 + (n / 0x40) % 0x40, 0x80 + n % 0x40]
  }

  /** The two-octet row of the table: code points 0x80 to 0x7FF. */
  lemma TwoOctets(n: int)
    requires 0x80 <= n < 0x800
    ensures 0xC2 <= 0xC0 + n / 0x40 <= 0xDF && 0 <= n % 0x40 < 0x40
  {
  }

  /** The three-octet row of the table: code points 0x800 to 0xFFFF, surrogates excluded. */
  lemma ThreeOctets(n: int)
    requires 0x800 <= n < 0x1_0000 && IsScalarValue(n)
    ensures var q: seq<int> := [0xE0 + n / 0x1000, 0x80 + (n / 0x40) % 0x40, 0x80 + n % 0x40];
            && (forall k :: 0 <= k < 3 ==> 0 <= q[k] < 0x100)
            && IsCharSequence(q)
  {
    var hi, mid := n / 0x1000, (n / 0x40) % 0x40;
    assert 0 <= hi < 0x10;
    assert hi == 0 ==> mid >= 0x20;
    assert hi == 0xD ==> mid < 0x20;
  }

  /** The four-octet row of the table: code points 0x10000 to 0x10FFFF. */
  lemma FourOctets(n: int)
    requires 0x1_0000 <= n < 0x11_0000
    ensures var q: seq<int> := [0xF0 + n / 0x4_0000, 0x80 + (n / 0x1000) % 0x40, 0x80 + (n / 0x40) % 0x40, 0x80 + n % 0x40];
            && (forall k :: 0 <= k < 4 ==> 0 <= q[k] < 0x100)
            && IsCharSequence(q)
  {
    var top, hi := n / 0x4_0000, (n / 0x1000) % 0x40;
    assert 0 <= top <= 4;
    assert top == 0 ==> hi == n / 0x1000 && hi >= 0x10;
    assert top == 4 ==> hi < 0x10;
  }

  /** The code point that one UTF8-char encodes. */
  function CodePoint(q: seq<Byte>): (n: int)
    requires IsCharSequence(q)
    ensures IsScalarValue(n)
  {
    var b0: int := q[0];
    if |q| == 1 then
      b0
    else if |q| == 2 then
      (b0 - 0xC0) * 0x40 + (q[1] - 0x80)
    else if |q| == 3 then
      (b0 - 0xE0) * 0x1000 + (q[1] as int - 0x80) * 0x40 + (q[2] - 0x80)
    else
      (b0 - 0xF0) * 0x4_0000 + (q[1] as int - 0x80) * 0x1000 + (q[2] as int - 0x80) * 0x40 + (q[3] - 0x80)
  }

  /** The length of the UTF8-char that a lead byte announces, 0 for a byte that cannot lead. */
  function SequenceLength(lead: Byte): (k: nat)
    ensures k <= 4
  {
    if lead <= 0x7F then 1
    else if 0xC2 <= lead <= 0xDF then 2
    else if 0xE0 <= lead <= 0xEF then 3
    else if 0xF0 <= lead <= 0xF4 then 4
    else 0
  }

  /** The encoding of a string: its characters' encodings, in order. */
  function Encode(s: string): (b: seq<Byte>)
    ensures WellFormed(b)
    decreases |s|
  {
    if s == [] then
      []
    else
      var head := EncodeChar(s[0]);
      var tail := Encode(s[1..]);
      assert (head + tail)[..|head|] == head && (head + tail)[|head|..] == tail;
      head + tail
  }

  /** `String::from_utf8`: the text a byte sequence encodes, or None when it is not well formed. */
  function Decode(b: seq<Byte>): (r: Option<string>)
    ensures r.Some? ==> Encode(r.value) == b
    decreases |b|
  {
    if b == [] then
      Some([])
    else
      var k := SequenceLength(b[0]);
      if k == 0 || k > |b| || !IsCharSequence(b[..k]) then
        None
      else
        var head, tail := b[..k], b[k..];
        assert head + tail == b;
        match Decode(tail)
        case None => None
        case Some(rest) =>
          var c := CodePoint(head) as char;
          EncodeCodePoint(head);
          var s := [c] + rest;
          assert s[0] == c && s[1..] == rest;
          assert Encode(s) == EncodeChar(c) + Encode(rest);
          Some(s)
  }

  /** Splitting a number into six-bit groups and joining them again is the identity. */
  lemma SixBitGroups(n: int)
    requires n >= 0
    ensures n == (n / 0x40) * 0x40 + n % 0x40
    ensures n / 0x1000 == (n / 0x40) / 0x40
    ensures n / 0x4_0000 == (n / 0x1000) / 0x40
  {
  }

  /** Decoding one UTF8-char and encoding the character again gives back the same octets. */
  lemma EncodeCodePoint(q: seq<Byte>)
    requires IsCharSequence(q)
    ensures EncodeChar(CodePoint(q) as char) == q
  {
    if |q| == 2 {
      EncodeTwo(q);
    } else if |q| == 3 {
      EncodeThree(q);
    } else if |q| == 4 {
      EncodeFour(q);
    }
  }

  lemma EncodeTwo(q: seq<Byte>)
    requires |q| == 2 && IsCharSequence(q)
    ensures EncodeChar(CodePoint(q) as char) == q
  {
    var n := CodePoint(q);
    var hi: int, lo: int := q[0] - 0xC0, q[1] - 0x80;
    assert n == hi * 0x40 + lo;
    assert n / 0x40 == hi && n % 0x40 == lo;
  }

  lemma EncodeThree(q: seq<Byte>)
    requires |q| == 3 && IsCharSequence(q)
    ensures EncodeChar(CodePoint(q) as char) == q
  {
    var n := CodePoint(q);
    var hi: int, mid: int, lo: int := q[0] - 0xE0, q[1] - 0x80, q[2] - 0x80;
    var m: int := hi * 0x40 + mid;
    assert n == m * 0x40 + lo;
    assert n / 0x40 == m && n % 0x40 == lo;
    assert m / 0x40 == hi && m % 0x40 == mid;
    SixBitGroups(n);
  }

  lemma EncodeFour(q: seq<Byte>)
    requires |q| == 4 && IsCharSequence(q)
    ensures EncodeChar(CodePoint(q) as char) == q
  {
    var n := CodePoint(q);
    var top: int, hi: int, mid: int, lo: int := q[0] - 0xF0, q[1] - 0x80, q[2] - 0x80, q[3] - 0x80;
    var m1: int := top * 0x40 + hi;
    var m2: int := m1 * 0x40 + mid;
    assert n == m2 * 0x40 + lo;
    assert n / 0x40 == m2 && n % 0x40 == lo;
    assert m2 / 0x40 == m1 && m2 % 0x40 == mid;
    assert m1 / 0x40 == top && m1 % 0x40 == hi;
    SixBitGroups(n);
  }

  /** Encoding a character and decoding the octets gives back the character. */
  lemma CodePointEncode(c: char)
    ensures CodePoint(EncodeChar(c)) == c as int
  {
    var n := c as int;
    SixBitGroups(n);
    SixBitGroups(n / 0x40);
    SixBitGroups(n / 0x1000);
  }

  /** The length of a UTF8-char is fixed by its first octet. */
  lemma LeadFixesLength(q: seq<Byte>)
    requires IsCharSequence(q)
    ensures SequenceLength(q[0]) == |q|
  {
  }

  /** Decoding inverts encoding: every string survives the round trip. */
  lemma {:induction false} DecodeEncode(s: string)
    ensures Decode(Encode(s)) == Some(s)
    decreases |s|
  {
    if s != [] {
      var head := EncodeChar(s[0]);
      var b := Encode(s);
      assert b == head + Encode(s[1..]);
      assert b[..|head|] == head && b[|head|..] == Encode(s[1..]);
      LeadFixesLength(head);
      CodePointEncode(s[0]);
      assert CodePoint(head) as char == s[0];
      DecodeEncode(s[1..]);
      assert s == [s[0]] + s[1..];
    }
  }

  /** `String::from_utf8` succeeds exactly on the well-formed octet sequences of RFC 3629. */
  lemma {:induction false} DecodeSucceedsIffWellFormed(b: seq<Byte>)
    ensures Decode(b).Some? <==> WellFormed(b)
    decreases |b|
  {
    if b != [] {
      var k := SequenceLength(b[0]);
      forall j | 1 <= j <= 4 && j <= |b| && IsCharSequence(b[..j])
        ensures j == k
      {
        LeadFixesLength(b[..j]);
      }
      if 1 <= k <= |b| {
        DecodeSucceedsIffWellFormed(b[k..]);
      }
    }
  }

  /** Well-formed UTF-8 is exactly the set of octet sequences that encode some string. */
  lemma WellFormedIffEncoding(b: seq<Byte>)
    ensures WellFormed(b) <==> exists s :: Encode(s) == b
  {
    DecodeSucceedsIffWellFormed(b);
    if WellFormed(b) {
      assert Encode(Decode(b).value) == b;
    }
    forall s | Encode(s) == b
      ensures WellFormed(b)
    {
    }
  }

  /** Encoding distributes over concatenation. */
  lemma {:induction false} EncodeAppend(s: string, t: string)
    ensures Encode(s + t) == Encode(s) + Encode(t)
    decreases |s|
  {
    if s != [] {
      var c, rest := s[0], s[1..];
      assert (s + t)[0] == c && (s + t)[1..] == rest + t;
      EncodeAppend(rest, t);
      calc {
        Encode(s + t);
        EncodeChar(c) + Encode(rest + t);
        EncodeChar(c) + (Encode(rest) + Encode(t));
        (EncodeChar(c) + Encode(rest)) + Encode(t);
        Encode(s) + Encode(t);
      }
    } else {
      assert s + t == t;
    }
  }
}
