/** Standard base64 (RFC 4648 section 4, with `=` padding): the encoding
    Node's `Buffer.toString("base64")` produces, and the decoding an archive
    writer applies to a base64 entry. */
module Base64 {
  import opened Common

  type sextet = x: int | 0 <= x < 64

  /** The alphabet character for a 6-bit value. */
  function CharOf(v: sextet): char
  {
    if v < 26 then ('A' as int + v) as char
    else if v < 52 then ('a' as int + (v - 26)) as char
    else if v < 62 then ('0' as int + (v - 52)) as char
    else if v == 62 then '+'
    else '/'
  }

  /** The 6-bit value of an alphabet character; None for anything else
      (including the padding character `=`). */
  function ValueOf(c: char): Option<sextet>
  {
    if 'A' <= c <= 'Z' then Some(c as int - 'A' as int)
    else if 'a' <= c <= 'z' then Some(c as int - 'a' as int + 26)
    else if '0' <= c <= '9' then Some(c as int - '0' as int + 52)
    else if c == '+' then Some(62)
    else if c == '/' then Some(63)
    else None
  }

  /** The alphabet is a bijection between 6-bit values and its 64 characters. */
  lemma ValueOfCharOf(v: sextet)
    ensures ValueOf(CharOf(v)) == Some(v)
  {
  }

  lemma CharOfValueOf(c: char)
    requires InAlphabet(c)
    ensures CharOf(ValueOf(c).value) == c
  {
  }

  predicate InAlphabet(c: char) {
    ValueOf(c).Some?
  }

  /** Three bytes to four characters. */
  function EncodeTriple(b0: byte, b1: byte, b2: byte): (s: string)
    ensures |s| == 4
  {
    [CharOf(b0 / 4), CharOf((b0 % 4) * 16 + b1 / 16), CharOf((b1 % 16) * 4 + b2 / 64), CharOf(b2 % 64)]
  }

  /** A final single byte: two characters and two padding characters. */
  function EncodeOne(b0: byte): (s: string)
    ensures |s| == 4
  {
    [CharOf(b0 / 4), CharOf((b0 % 4) * 16), '=', '=']
  }

  /** A final pair of bytes: three characters and one padding character. */
  function EncodeTwo(b0: byte, b1: byte): (s: string)
    ensures |s| == 4
  {
    [CharOf(b0 / 4), CharOf((b0 % 4) * 16 + b1 / 16), CharOf((b1 % 16) * 4), '=']
  }

  /** The base64 text of a byte sequence. */
  function Encode(b: seq<byte>): (s: string)
    ensures |s| == 4 * ((|b| + 2) / 3)
    decreases |b|
  {
    if |b| == 0 then ""
    else if |b| == 1 then EncodeOne(b[0])
    else if |b| == 2 then EncodeTwo(b[0], b[1])
    else EncodeTriple(b[0], b[1], b[2]) + Encode(b[3..])
  }

  /** A group of four alphabet characters, no padding, to three bytes. */
  function DecodeFull(q: string): (r: Option<seq<byte>>)
    requires |q| == 4
    ensures r.Some? ==> |r.value| == 3
  {
    var v0, v1, v2, v3 := ValueOf(q[0]), ValueOf(q[1]), ValueOf(q[2]), ValueOf(q[3]);
    if v0.None? || v1.None? || v2.None? || v3.None? then None
    else Some([v0.value * 4 + v1.value / 16, (v1.value % 16) * 16 + v2.value / 4, (v2.value % 4) * 64 + v3.value])
  }

  /** The final group, which may end in `==` (one byte) or `=` (two bytes). */
  function DecodeLast(q: string): (r: Option<seq<byte>>)
    requires |q| == 4
  {
    var v0, v1, v2 := ValueOf(q[0]), ValueOf(q[1]), ValueOf(q[2]);
    if v0.None? || v1.None? then None
    else if q[2] == '=' && q[3] == '=' then Some([v0.value * 4 + v1.value / 16])
    else if v2.None? then None
    else if q[3] == '=' then Some([v0.value * 4 + v1.value / 16, (v1.value % 16) * 16 + v2.value / 4])
    else DecodeFull(q)
  }

  /** Strict decoding: the text is a sequence of four-character groups; only
      the last group may carry one or two `=` padding characters. */
  function Decode(s: string): (r: Option<seq<byte>>)
    decreases |s|
  {
    if |s| == 0 then Some([])
    else if |s| < 4 then None
    else if |s| == 4 then DecodeLast(s)
    else
      match DecodeFull(s[..4])
      case None => None
      case Some(group) =>
        match Decode(s[4..])
        case None => None
        case Some(rest) => Some(group + rest)
  }

  lemma TripleRoundTrip(b0: byte, b1: byte, b2: byte)
    ensures DecodeFull(EncodeTriple(b0, b1, b2)) == Some([b0, b1, b2])
  {
    var s0, s1, s2, s3 := b0 / 4, (b0 % 4) * 16 + b1 / 16, (b1 % 16) * 4 + b2 / 64, b2 % 64;
    ValueOfCharOf(s0);
    ValueOfCharOf(s1);
    ValueOfCharOf(s2);
    ValueOfCharOf(s3);
    TripleArithmetic(b0, b1, b2);
  }

  /** Regrouping 3 × 8 bits as 4 × 6 bits and back is the identity. */
  lemma TripleArithmetic(b0: byte, b1: byte, b2: byte)
    ensures (b0 / 4) * 4 + ((b0 % 4) * 16 + b1 / 16) / 16 == b0
    ensures (((b0 % 4) * 16 + b1 / 16) % 16) * 16 + ((b1 % 16) * 4 + b2 / 64) / 4 == b1
    ensures (((b1 % 16) * 4 + b2 / 64) % 4) * 64 + b2 % 64 == b2
  {
    var s1, s2 := (b0 % 4) * 16 + b1 / 16, (b1 % 16) * 4 + b2 / 64;
    assert s1 / 16 == b0 % 4 && s1 % 16 == b1 / 16;
    assert s2 / 4 == b1 % 16 && s2 % 4 == b2 / 64;
  }

  lemma OneRoundTrip(b0: byte)
    ensures DecodeLast(EncodeOne(b0)) == Some([b0])
  {
    var s0, s1 := b0 / 4, (b0 % 4) * 16;
    ValueOfCharOf(s0);
    ValueOfCharOf(s1);
    assert s1 / 16 == b0 % 4;
  }

  lemma TwoRoundTrip(b0: byte, b1: byte)
    ensures DecodeLast(EncodeTwo(b0, b1)) == Some([b0, b1])
  {
    var s0, s1, s2 := b0 / 4, (b0 % 4) * 16 + b1 / 16, (b1 % 16) * 4;
    ValueOfCharOf(s0);
    ValueOfCharOf(s1);
    ValueOfCharOf(s2);
    assert CharOf(s2) != '=';
    assert s1 / 16 == b0 % 4 && s1 % 16 == b1 / 16;
    assert s2 / 4 == b1 % 16;
  }

  /** A final group without padding decodes like a full group. */
  lemma LastTripleRoundTrip(b0: byte, b1: byte, b2: byte)
    ensures DecodeLast(EncodeTriple(b0, b1, b2)) == Some([b0, b1, b2])
  {
    var q := EncodeTriple(b0, b1, b2);
    TripleRoundTrip(b0, b1, b2);
    ValueOfCharOf((b1 % 16) * 4 + b2 / 64);
    ValueOfCharOf(b2 % 64);
    assert q[2] != '=' && q[3] != '=';
  }

  /** Decoding the group that encodes three bytes, in front of more text. */
  lemma DecodeTriple(b0: byte, b1: byte, b2: byte, rest: string)
    requires |rest| > 0
    requires Decode(rest).Some?
    ensures Decode(EncodeTriple(b0, b1, b2) + rest) == Some([b0, b1, b2] + Decode(rest).value)
  {
    var s := EncodeTriple(b0, b1, b2) + rest;
    TripleRoundTrip(b0, b1, b2);
    assert s[..4] == EncodeTriple(b0, b1, b2);
    assert s[4..] == rest;
  }

  lemma EncodeUnfold(b: seq<byte>)
    requires |b| > 3
    ensures Encode(b) == EncodeTriple(b[0], b[1], b[2]) + Encode(b[3..])
  {
  }

  lemma FirstThree<T>(b: seq<T>)
    requires |b| >= 3
    ensures b == [b[0], b[1], b[2]] + b[3..]
  {
  }

  lemma Elements<T>(b: seq<T>)
    ensures |b| == 1 ==> b == [b[0]]
    ensures |b| == 2 ==> b == [b[0], b[1]]
    ensures |b| == 3 ==> b == [b[0], b[1], b[2]] && b[3..] == []
  {
  }

  /** A text of exactly one group decodes as a final group. */
  lemma DecodeOneGroup(q: string)
    requires |q| == 4
    ensures Decode(q) == DecodeLast(q)
  {
  }

  lemma DecodeEncodeOne(b: seq<byte>)
    requires |b| == 1
    ensures Decode(Encode(b)) == Some(b)
  {
    Elements(b);
    var s := Encode(b);
    DecodeOneGroup(s);
    assert s == EncodeOne(b[0]);
    OneRoundTrip(b[0]);
  }

  lemma DecodeEncodeTwo(b: seq<byte>)
    requires |b| == 2
    ensures Decode(Encode(b)) == Some(b)
  {
    Elements(b);
    var s := Encode(b);
    DecodeOneGroup(s);
    assert s == EncodeTwo(b[0], b[1]);
    TwoRoundTrip(b[0], b[1]);
  }

  lemma EncodeThreeBytes(b: seq<byte>)
    requires |b| == 3
    ensures Encode(b) == EncodeTriple(b[0], b[1], b[2])
  {
    assert b[3..] == [];
    assert EncodeTriple(b[0], b[1], b[2]) + "" == EncodeTriple(b[0], b[1], b[2]);
  }

  lemma DecodeEncodeThree(b: seq<byte>)
    requires |b| == 3
    ensures Decode(Encode(b)) == Some(b)
  {
    Elements(b);
    var s := Encode(b);
    DecodeOneGroup(s);
    EncodeThreeBytes(b);
    LastTripleRoundTrip(b[0], b[1], b[2]);
  }

  lemma DecodeEncodeLong(b: seq<byte>)
    requires |b| > 3
    requires Decode(Encode(b[3..])) == Some(b[3..])
    ensures Decode(Encode(b)) == Some(b)
  {
    var rest := Encode(b[3..]);
    EncodeUnfold(b);
    DecodeTriple(b[0], b[1], b[2], rest);
    FirstThree(b);
  }

  /** Decoding undoes encoding: the archive entry built from a base64
      payload holds exactly the bytes that were encoded. */
  lemma {:induction false} DecodeEncode(b: seq<byte>)
    ensures Decode(Encode(b)) == Some(b)
    decreases |b|
  {
    if |b| == 1 {
      DecodeEncodeOne(b);
    } else if |b| == 2 {
      DecodeEncodeTwo(b);
    } else if |b| == 3 {
      DecodeEncodeThree(b);
    } else if |b| > 3 {
      DecodeEncode(b[3..]);
      DecodeEncodeLong(b);
    }
  }

  predicate Base64Text(s: string) {
    forall i :: 0 <= i < |s| ==> InAlphabet(s[i]) || s[i] == '='
  }

  lemma GroupCharset(b0: byte, b1: byte, b2: byte)
    ensures Base64Text(EncodeTriple(b0, b1, b2))
    ensures Base64Text(EncodeTwo(b0, b1))
    ensures Base64Text(EncodeOne(b0))
  {
    ValueOfCharOf(b0 / 4);
    ValueOfCharOf((b0 % 4) * 16 + b1 / 16);
    ValueOfCharOf((b1 % 16) * 4 + b2 / 64);
    ValueOfCharOf(b2 % 64);
    ValueOfCharOf((b0 % 4) * 16);
    ValueOfCharOf((b1 % 16) * 4);
  }

  /** Every character of the encoding is an alphabet character or `=`;
      in particular the encoding never contains a comma. */
  lemma {:induction false} EncodeCharset(b: seq<byte>)
    ensures Base64Text(Encode(b))
    decreases |b|
  {
    if |b| == 1 {
      GroupCharset(b[0], 0, 0);
    } else if |b| == 2 {
      GroupCharset(b[0], b[1], 0);
    } else if |b| >= 3 {
      EncodeCharset(b[3..]);
      GroupCharset(b[0], b[1], b[2]);
      var q, rest := EncodeTriple(b[0], b[1], b[2]), Encode(b[3..]);
      assert forall i :: 0 <= i < |q + rest| ==> (q + rest)[i] == if i < 4 then q[i] else rest[i - 4];
    }
  }
}
