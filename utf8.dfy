/**
 * UTF-8 as Rust's strings use it: `str::bytes()` yields the UTF-8 encoding
 * of a string, and `String::from_utf8` accepts a byte vector exactly when it
 * is well formed in the sense of section 3 of RFC 3629 (the byte ranges of
 * the table in section 4: no overlong forms, no surrogates, nothing above
 * U+10FFFF).
 *
 * A Dafny `char` is a Unicode scalar value, so `Encode` is total; `Valid` is
 * the well-formedness check and `Decode` reads a well-formed sequence back.
 * The lemmas show that `Valid` holds of exactly the encodings of strings.
 */
module Utf8 {
  import opened Prelude

  predicate IsContinuation(b: byte) {
    0x80 <= b <= 0xBF
  }

  /** The encoding of one scalar value, in one to four bytes. */
  function EncodeChar(c: char): (bs: seq<byte>)
    ensures 1 <= |bs| <= 4
  {
    var n := c as int;
    if n < 0x80 then [n]
    else if n < 0x800 then [0xC0 + n / 0x40, 0x80 + n % 0x40]
    else if n < 0x1_0000 then [0xE0 + n / 0x1000, 0x80 + (n / 0x40) % 0x40, 0x80 + n % 0x40]
    else [0xF0 + n / 0x4_0000, 0x80 + (n / 0x1000) % 0x40, 0x80 + (n / 0x40) % 0x40, 0x80 + n % 0x40]
  }

  /** `s.bytes()`: the UTF-8 encoding of a string, character by character. */
  function Encode(s: string): (bs: seq<byte>)
    ensures |s| <= |bs| <= 4 * |s|
    decreases |s|
  {
    if s == [] then [] else EncodeChar(s[0]) + Encode(s[1..])
  }

  /**
   * The length of the well-formed character that starts `bs`, or 0 when the
   * first bytes match no row of the table in section 4 of RFC 3629.
   */
  function LeadingLength(bs: seq<byte>): (n: nat)
    requires |bs| > 0
    ensures n <= 4 && n <= |bs|
  {
    var b0 := bs[0];
    if b0 <= 0x7F then 1
    else if 0xC2 <= b0 <= 0xDF then
      if |bs| >= 2 && IsContinuation(bs[1]) then 2 else 0
    else if 0xE0 <= b0 <= 0xEF then
      var lo := if b0 == 0xE0 then 0xA0 else 0x80;
      var hi := if b0 == 0xED then 0x9F else 0xBF;
      if |bs| >= 3 && lo <= bs[1] <= hi && IsContinuation(bs[2]) then 3 else 0
    else if 0xF0 <= b0 <= 0xF4 then
      var lo := if b0 == 0xF0 then 0x90 else 0x80;
      var hi := if b0 == 0xF4 then 0x8F else 0xBF;
      if |bs| >= 4 && lo <= bs[1] <= hi && IsContinuation(bs[2]) && IsContinuation(bs[3]) then 4 else 0
    else 0
  }

  /** Well-formed UTF-8: a sequence of well-formed characters, the check `String::from_utf8` makes. */
  predicate Valid(bs: seq<byte>)
    ensures Valid(bs) && |bs| > 0 ==> bs[0] <= 0x7F || 0xC2 <= bs[0] <= 0xF4
    decreases |bs|
  {
    |bs| == 0 || (LeadingLength(bs) > 0 && Valid(bs[LeadingLength(bs)..]))
  }

  /** The six value bits a continuation byte carries. */
  function Payload(b: byte): int {
    b - 0x80
  }

  /** The scalar value of the well-formed character that starts `bs`. */
  function DecodeChar(bs: seq<byte>): char
    requires |bs| > 0 && LeadingLength(bs) > 0
  {
    var n := LeadingLength(bs);
    var v: int :=
      if n == 1 then bs[0]
      else if n == 2 then (bs[0] - 0xC0) as int * 0x40 + Payload(bs[1])
      else if n == 3 then (bs[0] - 0xE0) as int * 0x1000 + Payload(bs[1]) * 0x40 + Payload(bs[2])
      else (bs[0] - 0xF0) as int * 0x4_0000 + Payload(bs[1]) * 0x1000 + Payload(bs[2]) * 0x40 + Payload(bs[3]);
    assert n == 2 ==> 0x80 <= v < 0x800;
    assert n == 3 ==> 0x800 <= v < 0xD800 || 0xE000 <= v < 0x1_0000;
    assert n == 4 ==> 0x1_0000 <= v < 0x11_0000;
    v as char
  }

  /** The string whose encoding a well-formed sequence is. */
  function Decode(bs: seq<byte>): (s: string)
    requires Valid(bs)
    ensures |s| <= |bs| <= 4 * |s|
    decreases |bs|
  {
    if bs == [] then [] else [DecodeChar(bs)] + Decode(bs[LeadingLength(bs)..])
  }

  /** Splitting a number into its base-64 digit and the rest, for the arithmetic of the coder. */
  lemma Base64Digit(hi: nat, lo: nat)
    requires lo < 0x40
    ensures (hi * 0x40 + lo) / 0x40 == hi && (hi * 0x40 + lo) % 0x40 == lo
  {
  }

  /** The encoding of a character is a well-formed character whatever follows it, and decodes to it. */
  lemma EncodeCharLeading(c: char, rest: seq<byte>)
    ensures LeadingLength(EncodeChar(c) + rest) == |EncodeChar(c)|
    ensures DecodeChar(EncodeChar(c) + rest) == c
  {
    var n := c as int;
    if n < 0x80 {
    } else if n < 0x800 {
      TwoByteLeading(c, rest);
    } else if n < 0x1_0000 {
      ThreeByteLeading(c, rest);
    } else {
      FourByteLeading(c, rest);
    }
  }

  /** The two-byte encoding of a value below U+0800 reads back as that value. */
  lemma TwoByteLeading(c: char, rest: seq<byte>)
    requires 0x80 <= c as int < 0x800
    ensures LeadingLength(EncodeChar(c) + rest) == 2
    ensures DecodeChar(EncodeChar(c) + rest) == c
  {
    var n := c as int;
    assert 2 <= n / 0x40 < 0x20;
    assert n == (n / 0x40) * 0x40 + n % 0x40;
  }

  /** The three-byte encoding of a value below U+10000 reads back as that value. */
  lemma ThreeByteLeading(c: char, rest: seq<byte>)
    requires 0x800 <= c as int < 0x1_0000
    ensures LeadingLength(EncodeChar(c) + rest) == 3
    ensures DecodeChar(EncodeChar(c) + rest) == c
  {
    var n := c as int;
    var bs := EncodeChar(c) + rest;
    var q := n / 0x40;
    assert n == q * 0x40 + n % 0x40;
    assert q == (q / 0x40) * 0x40 + q % 0x40;
    assert q / 0x40 == n / 0x1000;
    assert bs[0] == 0xE0 ==> q >= 0x20;
    assert bs[0] == 0xED ==> 0x340 <= q < 0x360;
  }

  /** The four-byte encoding of a value from U+10000 on reads back as that value. */
  lemma FourByteLeading(c: char, rest: seq<byte>)
    requires 0x1_0000 <= c as int
    ensures LeadingLength(EncodeChar(c) + rest) == 4
    ensures DecodeChar(EncodeChar(c) + rest) == c
  {
    var n := c as int;
    var bs := EncodeChar(c) + rest;
    var q := n / 0x40;
    var p := q / 0x40;
    assert n == q * 0x40 + n % 0x40;
    assert q == p * 0x40 + q % 0x40;
    assert p == (p / 0x40) * 0x40 + p % 0x40;
    assert p == n / 0x1000 && p / 0x40 == n / 0x4_0000;
    assert bs[0] == 0xF0 ==> p >= 0x10;
    assert bs[0] == 0xF4 ==> 0x100 <= p < 0x110;
  }

  /** The two-byte rows of the table: the value and its base-64 digits. */
  lemma TwoByteDigits(b0: int, b1: int)
    requires 0xC2 <= b0 <= 0xDF && 0x80 <= b1 <= 0xBF
    ensures var v := (b0 - 0xC0) * 0x40 + (b1 - 0x80);
      0x80 <= v < 0x800 && v / 0x40 == b0 - 0xC0 && v % 0x40 == b1 - 0x80
  {
    Base64Digit(b0 - 0xC0, b1 - 0x80);
  }

  /** The three-byte rows of the table: the value and its base-64 digits. */
  lemma ThreeByteDigits(b0: int, b1: int, b2: int)
    requires 0xE0 <= b0 <= 0xEF && 0x80 <= b1 <= 0xBF && 0x80 <= b2 <= 0xBF
    ensures var v := (b0 - 0xE0) * 0x1000 + (b1 - 0x80) * 0x40 + (b2 - 0x80);
      v / 0x1000 == b0 - 0xE0 && (v / 0x40) % 0x40 == b1 - 0x80 && v % 0x40 == b2 - 0x80
  {
    var q := (b0 - 0xE0) * 0x40 + (b1 - 0x80);
    var v := (b0 - 0xE0) * 0x1000 + (b1 - 0x80) * 0x40 + (b2 - 0x80);
    assert v == q * 0x40 + (b2 - 0x80);
    Base64Digit(q, b2 - 0x80);
    Base64Digit(b0 - 0xE0, b1 - 0x80);
    assert v / 0x1000 == (v / 0x40) / 0x40;
  }

  /** The four-byte rows of the table: the value and its base-64 digits. */
  lemma FourByteDigits(b0: int, b1: int, b2: int, b3: int)
    requires 0xF0 <= b0 <= 0xF4 && 0x80 <= b1 <= 0xBF && 0x80 <= b2 <= 0xBF && 0x80 <= b3 <= 0xBF
    ensures var v := (b0 - 0xF0) * 0x4_0000 + (b1 - 0x80) * 0x1000 + (b2 - 0x80) * 0x40 + (b3 - 0x80);
      && v / 0x4_0000 == b0 - 0xF0 && (v / 0x1000) % 0x40 == b1 - 0x80
      && (v / 0x40) % 0x40 == b2 - 0x80 && v % 0x40 == b3 - 0x80
  {
    var p := (b0 - 0xF0) * 0x40 + (b1 - 0x80);
    var q := p * 0x40 + (b2 - 0x80);
    var v := (b0 - 0xF0) * 0x4_0000 + (b1 - 0x80) * 0x1000 + (b2 - 0x80) * 0x40 + (b3 - 0x80);
    assert v == q * 0x40 + (b3 - 0x80);
    Base64Digit(q, b3 - 0x80);
    Base64Digit(p, b2 - 0x80);
    Base64Digit(b0 - 0xF0, b1 - 0x80);
    assert v / 0x1000 == (v / 0x40) / 0x40;
    assert v / 0x4_0000 == (v / 0x1000) / 0x40;
  }

  /** A well-formed character is the encoding of the character it decodes to. */
  lemma {:induction false} DecodeCharEncodes(bs: seq<byte>)
    requires |bs| > 0 && LeadingLength(bs) > 0
    ensures EncodeChar(DecodeChar(bs)) == bs[..LeadingLength(bs)]
  {
    var n := LeadingLength(bs);
    if n == 2 {
      TwoByteEncodes(bs);
    } else if n == 3 {
      ThreeByteEncodes(bs);
    } else if n == 4 {
      FourByteEncodes(bs);
    }
  }

  /** A well-formed two-byte character is the encoding of its value. */
  lemma TwoByteEncodes(bs: seq<byte>)
    requires |bs| > 0 && LeadingLength(bs) == 2
    ensures EncodeChar(DecodeChar(bs)) == bs[..2]
  {
    TwoByteDigits(bs[0], bs[1]);
  }

  /** A well-formed three-byte character is the encoding of its value. */
  lemma ThreeByteEncodes(bs: seq<byte>)
    requires |bs| > 0 && LeadingLength(bs) == 3
    ensures EncodeChar(DecodeChar(bs)) == bs[..3]
  {
    ThreeByteDigits(bs[0], bs[1], bs[2]);
  }

  /** A well-formed four-byte character is the encoding of its value. */
  lemma FourByteEncodes(bs: seq<byte>)
    requires |bs| > 0 && LeadingLength(bs) == 4
    ensures EncodeChar(DecodeChar(bs)) == bs[..4]
  {
    FourByteDigits(bs[0], bs[1], bs[2], bs[3]);
  }

  /** `str::bytes()` always yields well-formed UTF-8, which reads back as the same string. */
  lemma {:induction false} EncodeValid(s: string)
    ensures Valid(Encode(s))
    ensures Decode(Encode(s)) == s
    decreases |s|
  {
    if s != [] {
      var head := EncodeChar(s[0]);
      var tail := Encode(s[1..]);
      EncodeCharLeading(s[0], tail);
      assert (head + tail)[|head|..] == tail;
      EncodeValid(s[1..]);
    }
  }

  /** Every well-formed sequence is the encoding of the string it decodes to. */
  lemma {:induction false} DecodeEncodes(bs: seq<byte>)
    requires Valid(bs)
    ensures Encode(Decode(bs)) == bs
    decreases |bs|
  {
    if bs != [] {
      var n := LeadingLength(bs);
      var c, rest := DecodeChar(bs), bs[n..];
      DecodeCharEncodes(bs);
      DecodeEncodes(rest);
      assert Decode(bs) == [c] + Decode(rest);
      EncodeCons(c, Decode(rest));
      SplitAt(bs, n);
    }
  }

  /** The encoding of a string that starts with `c` starts with the encoding of `c`. */
  lemma EncodeCons(c: char, t: string)
    ensures Encode([c] + t) == EncodeChar(c) + Encode(t)
  {
    assert ([c] + t)[0] == c && ([c] + t)[1..] == t;
  }

  /** `String::from_utf8` accepts exactly the byte vectors that some string's `bytes()` produce. */
  lemma ValidIffEncoding(bs: seq<byte>)
    ensures Valid(bs) <==> exists s :: Encode(s) == bs
  {
    if Valid(bs) {
      DecodeEncodes(bs);
    } else {
      forall s | Encode(s) == bs
        ensures false
      {
        EncodeValid(s);
      }
    }
  }

  /** Encoding distributes over concatenation, so a string's bytes come in character order. */
  lemma {:induction false} EncodeAppend(s: string, t: string)
    ensures Encode(s + t) == Encode(s) + Encode(t)
    decreases |s|
  {
    if s != [] {
      assert (s + t)[0] == s[0] && (s + t)[1..] == s[1..] + t;
      assert Encode(s + t) == EncodeChar(s[0]) + Encode(s[1..] + t);
      EncodeAppend(s[1..], t);
    } else {
      assert s + t == t;
    }
  }

  /** The byte sequences RFC 3629 singles out as ill-formed are rejected. */
  lemma InvalidExamples()
    ensures !Valid([0xFF]) && !Valid([0x80])
    ensures !Valid([0xC0, 0x80])
    ensures !Valid([0xED, 0xA0, 0x80])
    ensures !Valid([0xF4, 0x90, 0x80, 0x80])
    ensures !Valid([0xE2, 0x82])
  {
  }

  /** Bytes below 0x80 are well formed, one character each, with the byte as its scalar value. */
  lemma {:induction false} AsciiDecodes(bs: seq<byte>)
    requires forall i :: 0 <= i < |bs| ==> bs[i] < 0x80
    ensures Valid(bs)
    ensures |Decode(bs)| == |bs|
    ensures forall i :: 0 <= i < |bs| ==> Decode(bs)[i] as int == bs[i]
    decreases |bs|
  {
    if bs != [] {
      assert LeadingLength(bs) == 1;
      AsciiDecodes(bs[1..]);
      assert Decode(bs) == [DecodeChar(bs)] + Decode(bs[1..]);
    }
  }

  /** `FromUtf8Error`: the rejected bytes, handed back to the caller. */
  datatype FromUtf8Error = FromUtf8Error(bytes: seq<byte>)

  /**
   * `String::from_utf8`: the string whose encoding the bytes are, or the
   * bytes back when they are not well formed.
   */
  function FromUtf8(bs: seq<byte>): (r: Result<string, FromUtf8Error>)
    ensures r.Ok? <==> Valid(bs)
    ensures r.Ok? ==> Encode(r.value) == bs
    ensures r.Err? ==> r.error.bytes == bs
  {
    if Valid(bs) then
      DecodeEncodes(bs);
      Ok(Decode(bs))
    else Err(FromUtf8Error(bs))
  }

  /** `String::from_utf8(s.into_bytes())` gives back `s`. */
  lemma FromUtf8Encode(s: string)
    ensures FromUtf8(Encode(s)) == Ok(s)
  {
    EncodeValid(s);
  }
}
