/** Strict UTF-8, as Python's `bytes.decode("utf-8")` applies it: the
    well-formed byte sequences are exactly those of the UTF8-char rule in
    section 4 of RFC 3629, and anything else raises `UnicodeDecodeError` at
    the start of the first sequence that is not well formed.  Dafny's `char`
    is a Unicode scalar value, so a decoded string never holds a surrogate,
    just as the strict decoder never produces one. */
module Utf8 {
  import opened Wrappers

  newtype byte = b: int | 0 <= b < 256

  /** `UnicodeDecodeError`, carrying the offset where the offending sequence starts. */
  datatype DecodeError = DecodeError(position: nat)

  /** The code points a `char` can hold: 0..0x10FFFF without the surrogates. */
  predicate IsScalar(cp: int) {
    0 <= cp < 0xD800 || 0xE000 <= cp < 0x11_0000
  }

  /** A byte in the inclusive range lo..hi. */
  predicate InRange(b: byte, lo: int, hi: int) {
    lo <= b as int <= hi
  }

  /** UTF8-tail of RFC 3629: %x80-BF. */
  predicate Tail(b: byte) {
    InRange(b, 0x80, 0xBF)
  }

  /** The length of the UTF8-char (RFC 3629 section 4) that `b` starts with,
      or 0 when `b` is empty or does not start with one. */
  function LeadLength(b: seq<byte>): (n: nat)
    ensures n <= 4 && n <= |b|
    ensures |b| > 0 && b[0] as int <= 0x7F ==> n == 1
    ensures n > 0 ==> |b| > 0
  {
    if |b| == 0 then 0
    else
      var b0 := b[0] as int;
      if b0 <= 0x7F then 1
      else if 0xC2 <= b0 <= 0xDF then
        if |b| >= 2 && Tail(b[1]) then 2 else 0
      else if b0 == 0xE0 then
        if |b| >= 3 && InRange(b[1], 0xA0, 0xBF) && Tail(b[2]) then 3 else 0
      else if 0xE1 <= b0 <= 0xEC || b0 == 0xEE || b0 == 0xEF then
        if |b| >= 3 && Tail(b[1]) && Tail(b[2]) then 3 else 0
      else if b0 == 0xED then
        if |b| >= 3 && InRange(b[1], 0x80, 0x9F) && Tail(b[2]) then 3 else 0
      else if b0 == 0xF0 then
        if |b| >= 4 && InRange(b[1], 0x90, 0xBF) && Tail(b[2]) && Tail(b[3]) then 4 else 0
      else if 0xF1 <= b0 <= 0xF3 then
        if |b| >= 4 && Tail(b[1]) && Tail(b[2]) && Tail(b[3]) then 4 else 0
      else if b0 == 0xF4 then
        if |b| >= 4 && InRange(b[1], 0x80, 0x8F) && Tail(b[2]) && Tail(b[3]) then 4 else 0
      else 0
  }

  /** The scalar value encoded by the UTF8-char at the start of `b`. */
  function ScalarOf(b: seq<byte>): (cp: int)
    requires LeadLength(b) > 0
    ensures IsScalar(cp)
    ensures LeadLength(b) == 1 <==> cp < 0x80
    ensures LeadLength(b) == 2 <==> 0x80 <= cp < 0x800
    ensures LeadLength(b) == 3 <==> 0x800 <= cp < 0x1_0000
    ensures LeadLength(b) == 4 <==> 0x1_0000 <= cp
  {
    var n := LeadLength(b);
    if n == 1 then b[0] as int
    else if n == 2 then (b[0] as int - 0xC0) * 64 + (b[1] as int - 0x80)
    else if n == 3 then
      (b[0] as int - 0xE0) * 4096 + (b[1] as int - 0x80) * 64 + (b[2] as int - 0x80)
    else
      (b[0] as int - 0xF0) * 262144 + (b[1] as int - 0x80) * 4096
      + (b[2] as int - 0x80) * 64 + (b[3] as int - 0x80)
  }

  /** `bytes.decode("utf-8")` with the default strict error handler. */
  function Decode(b: seq<byte>): (r: Result<string, DecodeError>)
    ensures r.Success? ==> |r.value| <= |b|
    ensures r.Failure? ==> r.error.position < |b|
    decreases |b|
  {
    if |b| == 0 then Success([])
    else
      var n := LeadLength(b);
      if n == 0 then Failure(DecodeError(0))
      else
        match Decode(b[n..])
        case Success(s) => Success([ScalarOf(b) as char] + s)
        case Failure(e) => Failure(DecodeError(e.position + n))
  }

  /** The bytes are valid UTF-8. */
  predicate Valid(b: seq<byte>) {
    Decode(b).Success?
  }

  /** `str.encode("utf-8")` of one character. */
  function EncodeChar(c: char): (bs: seq<byte>)
    ensures 1 <= |bs| <= 4
  {
    var cp := c as int;
    if cp < 0x80 then [cp as byte]
    else if cp < 0x800 then [(0xC0 + cp / 64) as byte, (0x80 + cp % 64) as byte]
    else if cp < 0x1_0000 then
      [(0xE0 + cp / 4096) as byte, (0x80 + (cp / 64) % 64) as byte, (0x80 + cp % 64) as byte]
    else
      [(0xF0 + cp / 262144) as byte, (0x80 + (cp / 4096) % 64) as byte,
       (0x80 + (cp / 64) % 64) as byte, (0x80 + cp % 64) as byte]
  }

  /** `str.encode("utf-8")`. */
  function Encode(s: string): (bs: seq<byte>)
    ensures |s| <= |bs| <= 4 * |s|
  {
    if |s| == 0 then [] else EncodeChar(s[0]) + Encode(s[1..])
  }

  /** The encoding of one character is a single well-formed UTF8-char
      carrying that character, whatever follows it. */
  lemma EncodeCharLeads(c: char, rest: seq<byte>)
    ensures LeadLength(EncodeChar(c) + rest) == |EncodeChar(c)|
    ensures ScalarOf(EncodeChar(c) + rest) == c as int
  {
    var cp := c as int;
    if cp < 0x80 {
    } else if cp < 0x800 {
      EncodeTwo(cp, EncodeChar(c) + rest);
    } else if cp < 0x1_0000 {
      EncodeThree(cp, EncodeChar(c) + rest);
    } else {
      EncodeFour(cp, EncodeChar(c) + rest);
    }
  }

  lemma EncodeTwo(cp: int, b: seq<byte>)
    requires 0x80 <= cp < 0x800 && |b| >= 2
    requires b[0] as int == 0xC0 + cp / 64 && b[1] as int == 0x80 + cp % 64
    ensures LeadLength(b) == 2 && ScalarOf(b) == cp
  {
    Digits2(cp);
  }

  lemma EncodeThree(cp: int, b: seq<byte>)
    requires 0x800 <= cp < 0x1_0000 && IsScalar(cp) && |b| >= 3
    requires b[0] as int == 0xE0 + cp / 4096
    requires b[1] as int == 0x80 + (cp / 64) % 64 && b[2] as int == 0x80 + cp % 64
    ensures LeadLength(b) == 3 && ScalarOf(b) == cp
  {
    Digits3(cp);
  }

  lemma EncodeFour(cp: int, b: seq<byte>)
    requires 0x1_0000 <= cp < 0x11_0000 && |b| >= 4
    requires b[0] as int == 0xF0 + cp / 262144 && b[1] as int == 0x80 + (cp / 4096) % 64
    requires b[2] as int == 0x80 + (cp / 64) % 64 && b[3] as int == 0x80 + cp % 64
    ensures LeadLength(b) == 4 && ScalarOf(b) == cp
  {
    Digits4(cp);
  }

  /** A well-formed UTF8-char is the encoding of the character it carries. */
  lemma LeadIsEncoding(b: seq<byte>)
    requires LeadLength(b) > 0
    ensures EncodeChar(ScalarOf(b) as char) == b[..LeadLength(b)]
  {
    var n := LeadLength(b);
    if n == 2 {
      LeadIsEncoding2(b);
    } else if n == 3 {
      LeadIsEncoding3(b);
    } else if n == 4 {
      LeadIsEncoding4(b);
    }
  }

  lemma LeadIsEncoding2(b: seq<byte>)
    requires LeadLength(b) == 2
    ensures EncodeChar(ScalarOf(b) as char) == b[..2]
  {
    Unique64(ScalarOf(b), b[0] as int - 0xC0, b[1] as int - 0x80);
  }

  lemma LeadIsEncoding3(b: seq<byte>)
    requires LeadLength(b) == 3
    ensures EncodeChar(ScalarOf(b) as char) == b[..3]
  {
    var cp := ScalarOf(b);
    var x, y, z := b[0] as int - 0xE0, b[1] as int - 0x80, b[2] as int - 0x80;
    Unique64(cp, x * 64 + y, z);
    Unique64(x * 64 + y, x, y);
    Unique4096(cp, x, y * 64 + z);
  }

  lemma LeadIsEncoding4(b: seq<byte>)
    requires LeadLength(b) == 4
    ensures EncodeChar(ScalarOf(b) as char) == b[..4]
  {
    var cp := ScalarOf(b);
    var w, x, y, z := b[0] as int - 0xF0, b[1] as int - 0x80, b[2] as int - 0x80, b[3] as int - 0x80;
    Unique64(cp, w * 4096 + x * 64 + y, z);
    Unique64(w * 4096 + x * 64 + y, w * 64 + x, y);
    Unique4096(cp, w * 64 + x, y * 64 + z);
    Unique64(w * 64 + x, w, x);
    Unique262144(cp, w, x * 4096 + y * 64 + z);
  }

  lemma Digits2(cp: int)
    requires 0 <= cp
    ensures cp == (cp / 64) * 64 + cp % 64 && 0 <= cp % 64 < 64
  {}

  lemma Digits3(cp: int)
    requires 0 <= cp
    ensures cp == (cp / 4096) * 4096 + ((cp / 64) % 64) * 64 + cp % 64
    ensures 0 <= (cp / 64) % 64 < 64 && 0 <= cp % 64 < 64
  {
    var q := cp / 64;
    assert q == (q / 64) * 64 + q % 64;
    assert q / 64 == cp / 4096;
  }

  lemma Digits4(cp: int)
    requires 0 <= cp
    ensures cp == (cp / 262144) * 262144 + ((cp / 4096) % 64) * 4096 + ((cp / 64) % 64) * 64 + cp % 64
    ensures 0 <= (cp / 4096) % 64 < 64 && 0 <= (cp / 64) % 64 < 64 && 0 <= cp % 64 < 64
  {
    Digits3(cp);
    var q := cp / 4096;
    assert q == (q / 64) * 64 + q % 64;
    assert q / 64 == cp / 262144;
  }

  lemma Unique64(a: int, q: int, r: int)
    requires 0 <= r < 64 && a == q * 64 + r
    ensures a / 64 == q && a % 64 == r
  {}

  lemma Unique4096(a: int, q: int, r: int)
    requires 0 <= r < 4096 && a == q * 4096 + r
    ensures a / 4096 == q
  {}

  lemma Unique262144(a: int, q: int, r: int)
    requires 0 <= r < 262144 && a == q * 262144 + r
    ensures a / 262144 == q
  {}

  /** Decoding undoes encoding: every string survives the UTF-8 round trip. */
  lemma {:induction false} DecodeEncode(s: string)
    ensures Decode(Encode(s)) == Success(s)
  {
    if |s| > 0 {
      var e := EncodeChar(s[0]);
      var rest := Encode(s[1..]);
      var b := e + rest;
      assert Encode(s) == b;
      EncodeCharLeads(s[0], rest);
      assert b[|e|..] == rest;
      DecodeEncode(s[1..]);
      assert ScalarOf(b) as char == s[0];
      assert Decode(b) == Success([s[0]] + s[1..]);
      assert [s[0]] + s[1..] == s;
    }
  }

  /** Encoding undoes decoding: the only bytes that decode to `s` are the
      encoding of `s`. */
  lemma {:induction false} EncodeDecode(b: seq<byte>)
    requires Decode(b).Success?
    ensures Encode(Decode(b).value) == b
    decreases |b|
  {
    if |b| > 0 {
      var head, tail := EncodeLeadingChar(b);
      EncodeDecode(tail);
    }
  }

  /** Encoding a successful decoding gives back the leading UTF8-char
      itself, followed by the encoding of the rest's decoding. */
  lemma EncodeLeadingChar(b: seq<byte>) returns (head: seq<byte>, tail: seq<byte>)
    requires |b| > 0 && Decode(b).Success?
    ensures b == head + tail && |tail| < |b| && Decode(tail).Success?
    ensures Encode(Decode(b).value) == head + Encode(Decode(tail).value)
  {
    var n := LeadLength(b);
    head, tail := b[..n], b[n..];
    var c := ScalarOf(b) as char;
    var t := Decode(tail).value;
    assert Decode(b).value == [c] + t;
    LeadIsEncoding(b);
    assert ([c] + t)[1..] == t;
  }

  /** Strict decoding succeeds exactly on the encodings of strings, and then
      yields that string. */
  lemma DecodeIffEncoding(b: seq<byte>, s: string)
    ensures Decode(b) == Success(s) <==> b == Encode(s)
  {
    if Decode(b) == Success(s) {
      EncodeDecode(b);
    }
    if b == Encode(s) {
      DecodeEncode(s);
    }
  }

  /** Everything before a decoding error is valid UTF-8: the error names the
      first ill-formed sequence. */
  lemma {:induction false} DecodeFailurePrefix(b: seq<byte>)
    requires Decode(b).Failure?
    ensures Valid(b[..Decode(b).error.position])
    decreases |b|
  {
    if Decode(b).error.position > 0 {
      var tail := FailureStep(b);
      DecodeFailurePrefix(tail);
    } else {
      assert b[..0] == [];
    }
  }

  /** An error past the first byte lies in the bytes after the leading
      UTF8-char, and a valid prefix of those extends to a valid prefix of
      the whole. */
  lemma FailureStep(b: seq<byte>) returns (tail: seq<byte>)
    requires Decode(b).Failure? && Decode(b).error.position > 0
    ensures |tail| < |b| && Decode(tail).Failure?
    ensures Valid(tail[..Decode(tail).error.position]) ==> Valid(b[..Decode(b).error.position])
  {
    var head;
    head, tail := FailureShift(b);
    var p := Decode(tail).error.position;
    if Valid(tail[..p]) {
      ValidExtend(head, tail[..p]);
      assert b[..Decode(b).error.position] == head + tail[..p];
    }
  }

  /** A failure past the first byte is the failure of the bytes after the
      leading UTF8-char, shifted by its length. */
  lemma FailureShift(b: seq<byte>) returns (head: seq<byte>, tail: seq<byte>)
    requires Decode(b).Failure? && Decode(b).error.position > 0
    ensures b == head + tail && |head| > 0 && LeadLength(head) == |head|
    ensures Decode(tail).Failure? && Decode(b).error.position == |head| + Decode(tail).error.position
  {
    var n := LeadLength(b);
    head, tail := b[..n], b[n..];
    LeadLengthPrefix(b, head, n);
  }

  /** Decoding stops where no UTF8-char starts. */
  lemma {:induction false} DecodeErrorAt(b: seq<byte>)
    requires Decode(b).Failure?
    ensures LeadLength(b[Decode(b).error.position..]) == 0
    decreases |b|
  {
    if Decode(b).error.position > 0 {
      var head, tail := FailureShift(b);
      DecodeErrorAt(tail);
      assert tail[Decode(tail).error.position..] == b[Decode(b).error.position..];
    } else {
      assert b[0..] == b;
    }
  }

  /** A UTF8-char followed by valid bytes is valid. */
  lemma ValidExtend(head: seq<byte>, rest: seq<byte>)
    requires LeadLength(head) == |head| && |head| > 0 && Valid(rest)
    ensures Valid(head + rest)
  {
    var n := |head|;
    var pre := head + rest;
    assert pre[..n] == head[..n];
    LeadLengthPrefix(head, pre, n);
    assert pre[n..] == rest;
  }

  /** LeadLength looks only at the bytes of the sequence it reports. */
  lemma LeadLengthPrefix(b: seq<byte>, c: seq<byte>, n: nat)
    requires n == LeadLength(b) && 0 < n <= |c| && c[..n] == b[..n]
    ensures LeadLength(c) == n
  {
    assert c[0] == b[0];
    if n >= 2 { assert c[1] == b[1]; }
    if n >= 3 { assert c[2] == b[2]; }
    if n >= 4 { assert c[3] == b[3]; }
  }
}
