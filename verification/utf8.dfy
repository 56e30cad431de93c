/**
 Python's strict UTF-8 codec (`bytes.decode()` and `str.encode()` with the
 default encoding), following the well-formed byte sequences of section 4
 of RFC 3629: no overlong forms, no surrogates, nothing above U+10FFFF.
 Decoding fails on the first ill-formed or truncated sequence.
 */
module Utf8 {
  import opened Options

  type Byte = b: int | 0 <= b < 256

  /** Bytes below 0x80 read as the characters with the same codes. */
  function Chars(bs: seq<Byte>): (s: string)
    ensures |s| == |bs| && forall i :: 0 <= i < |bs| ==> s[i] as int == bs[i]
  {
    if bs == [] then [] else [bs[0] as char] + Chars(bs[1..])
  }

  /** One decoded character and the number of bytes it took. */
  datatype Scalar = Scalar(c: char, width: nat)

  predicate IsCont(b: Byte) {
    0x80 <= b < 0xC0
  }

  /** How many bytes a sequence opened by `b` has; 0 when no well-formed
      sequence starts with `b`. */
  function LeadWidth(b: Byte): (n: nat)
    ensures n <= 4
  {
    if b < 0x80 then 1
    else if 0xC2 <= b < 0xE0 then 2
    else if 0xE0 <= b < 0xF0 then 3
    else if 0xF0 <= b < 0xF5 then 4
    else 0
  }

  /** The range of the second byte after lead `b`, which is narrower than
      the continuation range for the leads that could otherwise start an
      overlong form, a surrogate, or a value past U+10FFFF. */
  function SecondLow(b: Byte): Byte {
    if b == 0xE0 then 0xA0 else if b == 0xF0 then 0x90 else 0x80
  }

  function SecondHigh(b: Byte): Byte {
    if b == 0xED then 0xA0 else if b == 0xF4 then 0x90 else 0xC0
  }

  /** The bytes `bs[..n]` open with a well-formed sequence of `n` bytes. */
  predicate WellFormedAt(bs: seq<Byte>, n: nat)
    requires 2 <= n <= |bs|
  {
    && SecondLow(bs[0]) <= bs[1] < SecondHigh(bs[0])
    && (n < 3 || IsCont(bs[2]))
    && (n < 4 || IsCont(bs[3]))
  }

  /** The scalar value the first `n` bytes of `bs` carry. */
  function CodePoint(bs: seq<Byte>, n: nat): (cp: int)
    requires 2 <= n <= 4 && n <= |bs| && LeadWidth(bs[0]) == n && WellFormedAt(bs, n)
    ensures 0x80 <= cp < 0xD800 || 0xE000 <= cp < 0x11_0000
    ensures n == 2 ==> cp < 0x800
    ensures n == 3 ==> 0x800 <= cp < 0x1_0000
    ensures n == 4 ==> 0x1_0000 <= cp
  {
    var b0, b1 := bs[0] as int, bs[1] as int;
    if n == 2 then (b0 - 0xC0) * 64 + (b1 - 0x80)
    else
      var b2 := bs[2] as int;
      if n == 3 then (b0 - 0xE0) * 4096 + (b1 - 0x80) * 64 + (b2 - 0x80)
      else (b0 - 0xF0) * 262144 + (b1 - 0x80) * 4096 + (b2 - 0x80) * 64 + (bs[3] as int - 0x80)
  }

  /** The first character of `bs`, or None when `bs` does not start with a
      complete well-formed sequence. */
  function DecodeFirst(bs: seq<Byte>): (r: Option<Scalar>)
    requires bs != []
    ensures r.Some? ==> 1 <= r.value.width <= |bs| && r.value.width <= 4
    ensures r.Some? ==> (r.value.c as int < 0x80 <==> bs[0] < 0x80)
    ensures bs[0] < 0x80 ==> r == Some(Scalar(bs[0] as char, 1))
  {
    var n := LeadWidth(bs[0]);
    if n == 0 || |bs| < n then None
    else if n == 1 then Some(Scalar(bs[0] as char, 1))
    else if !WellFormedAt(bs, n) then None
    else Some(Scalar(CodePoint(bs, n) as char, n))
  }

  /** `bytes.decode()`: the characters of `bs`, or None when some part of
      it is not well-formed UTF-8. */
  function Decode(bs: seq<Byte>): (r: Option<string>)
    ensures (forall i :: 0 <= i < |bs| ==> bs[i] < 0x80) ==>
              r == Some(Chars(bs))
    ensures r.Some? ==> ((forall i :: 0 <= i < |r.value| ==> r.value[i] as int < 0x80)
                         <==> (forall i :: 0 <= i < |bs| ==> bs[i] < 0x80))
    decreases |bs|
  {
    if bs == [] then Some([])
    else
      match DecodeFirst(bs)
      case None => None
      case Some(sc) =>
        match Decode(bs[sc.width..])
        case None => None
        case Some(rest) =>
          DecodeAsciiStep(bs, sc, bs[sc.width..], rest);
          DecodeAsciiIff(bs, sc, bs[sc.width..], rest);
          Some([sc.c] + rest)
  }

  /** An all-ASCII input decodes character for character. */
  lemma DecodeAsciiStep(bs: seq<Byte>, sc: Scalar, tail: seq<Byte>, rest: string)
    requires bs != [] && DecodeFirst(bs) == Some(sc) && tail == bs[sc.width..]
    requires (forall i :: 0 <= i < |tail| ==> tail[i] < 0x80) ==> rest == Chars(tail)
    ensures (forall i :: 0 <= i < |bs| ==> bs[i] < 0x80) ==> [sc.c] + rest == Chars(bs)
  {
    if forall i :: 0 <= i < |bs| ==> bs[i] < 0x80 {
      assert sc.width == 1;
      forall i | 0 <= i < |tail| ensures tail[i] < 0x80 {
        assert tail[i] == bs[1 + i];
      }
      assert Chars(bs) == [bs[0] as char] + Chars(tail);
    }
  }

  /** The output is all ASCII exactly when the input is. */
  lemma DecodeAsciiIff(bs: seq<Byte>, sc: Scalar, tail: seq<Byte>, rest: string)
    requires bs != [] && DecodeFirst(bs) == Some(sc) && tail == bs[sc.width..]
    requires (forall i :: 0 <= i < |rest| ==> rest[i] as int < 0x80)
             <==> (forall i :: 0 <= i < |tail| ==> tail[i] < 0x80)
    ensures var r := [sc.c] + rest;
            (forall i :: 0 <= i < |r| ==> r[i] as int < 0x80) <==> (forall i :: 0 <= i < |bs| ==> bs[i] < 0x80)
  {
    var r := [sc.c] + rest;
    if forall i :: 0 <= i < |bs| ==> bs[i] < 0x80 {
      assert sc.width == 1;
      forall i | 0 <= i < |tail| ensures tail[i] < 0x80 {
        assert tail[i] == bs[1 + i];
      }
      forall i | 0 <= i < |r| ensures r[i] as int < 0x80 {
        if i > 0 { assert r[i] == rest[i - 1]; }
      }
    }
    if forall i :: 0 <= i < |r| ==> r[i] as int < 0x80 {
      assert r[0] == sc.c;
      assert sc.width == 1;
      forall i | 0 <= i < |rest| ensures rest[i] as int < 0x80 {
        assert rest[i] == r[1 + i];
      }
      forall i | 0 <= i < |bs| ensures bs[i] < 0x80 {
        if i > 0 { assert bs[i] == tail[i - 1]; }
      }
    }
  }

  /** `str.encode()` on one character: one to four bytes by the size of
      its scalar value. */
  function EncodeChar(c: char): (bs: seq<Byte>)
    ensures |bs| == (if c as int < 0x80 then 1 else if c as int < 0x800 then 2
                     else if c as int < 0x1_0000 then 3 else 4)
    ensures bs[0] < 0x80 <==> c as int < 0x80
  {
    var cp := c as int;
    var q1 := cp / 64;
    var q2 := q1 / 64;
    if cp < 0x80 then [cp]
    else if cp < 0x800 then [0xC0 + q1, 0x80 + cp % 64]
    else if cp < 0x1_0000 then [0xE0 + q2, 0x80 + q1 % 64, 0x80 + cp % 64]
    else [0xF0 + q2 / 64, 0x80 + q2 % 64, 0x80 + q1 % 64, 0x80 + cp % 64]
  }

  /** `str.encode()`. */
  function Encode(s: string): (bs: seq<Byte>)
    ensures |s| <= |bs| <= 4 * |s|
    ensures (forall i :: 0 <= i < |s| ==> s[i] as int < 0x80) ==>
              |bs| == |s| && forall i :: 0 <= i < |s| ==> bs[i] == s[i] as int
  {
    if s == [] then [] else EncodeChar(s[0]) + Encode(s[1..])
  }

  // ---------------------------------------------------------------- lemmas

  lemma DecodeTwo(c: char, bs: seq<Byte>)
    requires 0x80 <= c as int < 0x800 && |bs| >= 2
    requires bs[..2] == EncodeChar(c)
    ensures DecodeFirst(bs) == Some(Scalar(c, 2))
  {
    var cp := c as int;
    assert bs[0] == 0xC0 + cp / 64 && bs[1] == 0x80 + cp % 64;
    assert LeadWidth(bs[0]) == 2;
    assert CodePoint(bs, 2) == cp;
  }

  lemma DecodeThree(c: char, bs: seq<Byte>)
    requires 0x800 <= c as int < 0x1_0000 && |bs| >= 3
    requires bs[..3] == EncodeChar(c)
    ensures DecodeFirst(bs) == Some(Scalar(c, 3))
  {
    var cp := c as int;
    var q1 := cp / 64;
    var q2 := q1 / 64;
    assert cp == q1 * 64 + cp % 64 && q1 == q2 * 64 + q1 % 64;
    assert bs[0] == 0xE0 + q2 && bs[1] == 0x80 + q1 % 64 && bs[2] == 0x80 + cp % 64;
    assert LeadWidth(bs[0]) == 3;
    assert WellFormedAt(bs, 3);
    assert CodePoint(bs, 3) == cp;
  }

  lemma DecodeFour(c: char, bs: seq<Byte>)
    requires 0x1_0000 <= c as int && |bs| >= 4
    requires bs[..4] == EncodeChar(c)
    ensures DecodeFirst(bs) == Some(Scalar(c, 4))
  {
    var cp := c as int;
    var q1 := cp / 64;
    var q2 := q1 / 64;
    var q3 := q2 / 64;
    assert cp == q1 * 64 + cp % 64 && q1 == q2 * 64 + q1 % 64 && q2 == q3 * 64 + q2 % 64;
    assert bs[0] == 0xF0 + q3 && bs[1] == 0x80 + q2 % 64;
    assert bs[2] == 0x80 + q1 % 64 && bs[3] == 0x80 + cp % 64;
    assert LeadWidth(bs[0]) == 4;
    assert WellFormedAt(bs, 4);
    assert CodePoint(bs, 4) == cp;
  }

  /** The decoder reads back the bytes of one encoded character, whatever
      follows them. */
  lemma DecodeFirstEncodeChar(c: char, rest: seq<Byte>)
    ensures DecodeFirst(EncodeChar(c) + rest) == Some(Scalar(c, |EncodeChar(c)|))
  {
    var e := EncodeChar(c);
    var bs := e + rest;
    var cp := c as int;
    assert bs[..|e|] == e;
    if cp < 0x80 {
      assert bs[0] == cp;
    } else if cp < 0x800 {
      DecodeTwo(c, bs);
    } else if cp < 0x1_0000 {
      DecodeThree(c, bs);
    } else {
      DecodeFour(c, bs);
    }
  }

  /** Decoding inverts encoding: `s.encode().decode() == s`. */
  lemma {:induction false} DecodeEncode(s: string)
    ensures Decode(Encode(s)) == Some(s)
  {
    if s != [] {
      var e := EncodeChar(s[0]);
      var bs := Encode(s);
      DecodeFirstEncodeChar(s[0], Encode(s[1..]));
      assert bs[|e|..] == Encode(s[1..]);
      DecodeEncode(s[1..]);
      assert s == [s[0]] + s[1..];
    }
  }

  /** Encoding reads back the bytes one decoded character came from. */
  lemma EncodeCharDecodeFirst(bs: seq<Byte>)
    requires bs != [] && DecodeFirst(bs).Some?
    ensures EncodeChar(DecodeFirst(bs).value.c) == bs[..DecodeFirst(bs).value.width]
  {
    var sc := DecodeFirst(bs).value;
    var n := sc.width;
    if n == 2 {
      EncodeTwo(bs);
    } else if n == 3 {
      EncodeThree(bs);
    } else if n == 4 {
      EncodeFour(bs);
    }
  }

  lemma EncodeTwo(bs: seq<Byte>)
    requires bs != [] && DecodeFirst(bs).Some? && DecodeFirst(bs).value.width == 2
    ensures EncodeChar(DecodeFirst(bs).value.c) == bs[..2]
  {
    var cp := CodePoint(bs, 2);
    assert cp == (bs[0] as int - 0xC0) * 64 + (bs[1] as int - 0x80);
    assert cp / 64 == bs[0] as int - 0xC0 && cp % 64 == bs[1] as int - 0x80;
  }

  lemma EncodeThree(bs: seq<Byte>)
    requires bs != [] && DecodeFirst(bs).Some? && DecodeFirst(bs).value.width == 3
    ensures EncodeChar(DecodeFirst(bs).value.c) == bs[..3]
  {
    var cp := CodePoint(bs, 3);
    var q1 := (bs[0] as int - 0xE0) * 64 + (bs[1] as int - 0x80);
    assert cp == q1 * 64 + (bs[2] as int - 0x80);
    assert cp / 64 == q1 && cp % 64 == bs[2] as int - 0x80;
    assert q1 / 64 == bs[0] as int - 0xE0 && q1 % 64 == bs[1] as int - 0x80;
  }

  lemma EncodeFour(bs: seq<Byte>)
    requires bs != [] && DecodeFirst(bs).Some? && DecodeFirst(bs).value.width == 4
    ensures EncodeChar(DecodeFirst(bs).value.c) == bs[..4]
  {
    var cp := CodePoint(bs, 4);
    var q2 := (bs[0] as int - 0xF0) * 64 + (bs[1] as int - 0x80);
    var q1 := q2 * 64 + (bs[2] as int - 0x80);
    assert cp == q1 * 64 + (bs[3] as int - 0x80);
    assert cp / 64 == q1 && cp % 64 == bs[3] as int - 0x80;
    assert q1 / 64 == q2 && q1 % 64 == bs[2] as int - 0x80;
    assert q2 / 64 == bs[0] as int - 0xF0 && q2 % 64 == bs[1] as int - 0x80;
  }

  /** Encoding inverts decoding: whatever decodes, `s.encode()` gives back
      the very bytes `s` was decoded from. */
  lemma {:induction false} EncodeDecode(bs: seq<Byte>)
    requires Decode(bs).Some?
    ensures Encode(Decode(bs).value) == bs
    decreases |bs|
  {
    if bs != [] {
      var sc := DecodeFirst(bs).value;
      var tail := bs[sc.width..];
      var rest := Decode(tail).value;
      EncodeDecode(tail);
      EncodeCharDecodeFirst(bs);
      DecodeCons(bs, sc, rest);
      EncodeCons(sc.c, rest);
      Rejoin(bs, sc.width, EncodeChar(sc.c), Encode(rest));
    }
  }

  lemma Rejoin<T>(s: seq<T>, w: nat, a: seq<T>, b: seq<T>)
    requires w <= |s| && a == s[..w] && b == s[w..]
    ensures a + b == s
  {
  }

  lemma DecodeCons(bs: seq<Byte>, sc: Scalar, rest: string)
    requires bs != [] && DecodeFirst(bs) == Some(sc) && Decode(bs[sc.width..]) == Some(rest)
    ensures Decode(bs) == Some([sc.c] + rest)
  {
  }

  lemma EncodeCons(c: char, rest: string)
    ensures Encode([c] + rest) == EncodeChar(c) + Encode(rest)
  {
    assert ([c] + rest)[1..] == rest;
  }

  /** Decoding succeeds on exactly the encodings of strings, and then
      yields the string encoded. */
  lemma DecodeIffEncoded(bs: seq<Byte>, s: string)
    ensures Decode(bs) == Some(s) <==> Encode(s) == bs
  {
    if Decode(bs) == Some(s) {
      EncodeDecode(bs);
    }
    if Encode(s) == bs {
      DecodeEncode(s);
    }
  }

  /** U+00E9 is C3 A9; U+20AC is E2 82 AC. */
  lemma DecodeExamples()
    ensures Decode([0xC3, 0xA9]) == Some(['\U{e9}'])
    ensures Decode([0xE2, 0x82, 0xAC]) == Some(['\U{20ac}'])
  {
    EncodeOne('\U{e9}', [0xC3, 0xA9]);
    EncodeOne('\U{20ac}', [0xE2, 0x82, 0xAC]);
  }

  lemma EncodeOne(c: char, bs: seq<Byte>)
    requires EncodeChar(c) == bs
    ensures Decode(bs) == Some([c])
  {
    EncodeCons(c, []);
    assert [c] + [] == [c];
    assert bs + [] == bs;
    DecodeEncode([c]);
  }

  /** An overlong form, a surrogate, a value past U+10FFFF and a truncated
      sequence are all rejected. */
  lemma RejectExamples()
    ensures Decode([0xC0, 0xAF]) == None
    ensures Decode([0xED, 0xA0, 0x80]) == None
    ensures Decode([0xF4, 0x90, 0x80, 0x80]) == None
    ensures Decode([0xE2, 0x82]) == None
  {
  }
}
