/** Well-formed UTF-8 as defined by the ABNF of RFC 3629, section 4; the
    decoder accepts a host name only when its octets satisfy `ValidUtf8`. */
module Utf8 {
  import opened Bytes

  /** UTF8-tail = %x80-BF */
  predicate IsTail(b: byte)
  {
    0x80 <= b <= 0xBF
  }

  /** The octet after the lead of a three-octet UTF8-3 character. */
  predicate SecondOfThree(lead: byte, b: byte)
  {
    if lead == 0xE0 then 0xA0 <= b <= 0xBF
    else if lead == 0xED then 0x80 <= b <= 0x9F
    else IsTail(b)
  }

  /** The octet after the lead of a four-octet UTF8-4 character. */
  predicate SecondOfFour(lead: byte, b: byte)
  {
    if lead == 0xF0 then 0x90 <= b <= 0xBF
    else if lead == 0xF4 then 0x80 <= b <= 0x8F
    else IsTail(b)
  }

  /** The number of octets of the UTF8-char that `s` starts with, or 0 when
      `s` does not start with one. */
  function CharWidth(s: seq<byte>): (w: nat)
    ensures w <= 4 && w <= |s|
    ensures s != [] && s[0] <= 0x7F ==> w == 1
  {
    if |s| == 0 then 0
    else if s[0] <= 0x7F then 1
    else if 0xC2 <= s[0] <= 0xDF then
      if |s| >= 2 && IsTail(s[1]) then 2 else 0
    else if 0xE0 <= s[0] <= 0xEF then
      if |s| >= 3 && SecondOfThree(s[0], s[1]) && IsTail(s[2]) then 3 else 0
    else if 0xF0 <= s[0] <= 0xF4 then
      if |s| >= 4 && SecondOfFour(s[0], s[1]) && IsTail(s[2]) && IsTail(s[3]) then 4 else 0
    else 0
  }

  /** UTF8-octets = *( UTF8-char ) */
  predicate ValidUtf8(s: seq<byte>)
    decreases |s|
  {
    s == [] || (CharWidth(s) > 0 && ValidUtf8(s[CharWidth(s)..]))
  }

  /** The character at the head depends only on its own octets. */
  lemma CharWidthPrefix(a: seq<byte>, b: seq<byte>)
    requires CharWidth(a) > 0
    ensures CharWidth(a + b) == CharWidth(a)
  {
    var w := CharWidth(a);
    assert (a + b)[..w] == a[..w];
  }

  /** The concatenation of two well-formed strings is well formed. */
  lemma {:induction false} ConcatValid(a: seq<byte>, b: seq<byte>)
    requires ValidUtf8(a) && ValidUtf8(b)
    ensures ValidUtf8(a + b)
  {
    if a == [] {
      assert a + b == b;
    } else {
      var w := CharWidth(a);
      ConcatValid(a[w..], b);
      ConcatStep(a, b, w);
    }
  }

  /** A leading character of `a` stays the leading character of `a + b`. */
  lemma ConcatStep(a: seq<byte>, b: seq<byte>, w: nat)
    requires w == CharWidth(a) > 0 && ValidUtf8(a[w..] + b)
    ensures ValidUtf8(a + b)
  {
    CharWidthPrefix(a, b);
    assert (a + b)[w..] == a[w..] + b;
  }

  /** Octets below 0x80 (US-ASCII) always form well-formed UTF-8. */
  lemma {:induction false} AsciiValid(s: seq<byte>)
    requires forall i :: 0 <= i < |s| ==> s[i] < 0x80
    ensures ValidUtf8(s)
  {
    if s != [] {
      AsciiValid(s[1..]);
    }
  }

  /** A Unicode scalar value: a code point that is not a surrogate. */
  predicate IsScalar(c: nat)
  {
    c <= 0x10FFFF && !(0xD800 <= c <= 0xDFFF)
  }

  /** The UTF-8 encoding of a scalar value, per the table of RFC 3629, section 3. */
  function EncodeScalar(c: nat): (s: seq<byte>)
    requires IsScalar(c)
    ensures 1 <= |s| <= 4
  {
    if c < 0x80 then [c]
    else if c < 0x800 then [0xC0 + c / 64, 0x80 + c % 64]
    else if c < 0x10000 then [0xE0 + c / 4096, 0x80 + (c / 64) % 64, 0x80 + c % 64]
    else [0xF0 + c / 262144, 0x80 + (c / 4096) % 64, 0x80 + (c / 64) % 64, 0x80 + c % 64]
  }

  /** Every encoded scalar value is exactly one well-formed UTF8-char:
      the section 3 encoding and the section 4 syntax agree. */
  lemma EncodeScalarValid(c: nat)
    requires IsScalar(c)
    ensures CharWidth(EncodeScalar(c)) == |EncodeScalar(c)|
    ensures ValidUtf8(EncodeScalar(c))
  {
    var s := EncodeScalar(c);
    if c < 0x80 {
    } else if c < 0x800 {
      assert 2 <= c / 64 < 32;
    } else if c < 0x10000 {
      assert 0 <= c / 4096 < 16;
      if c < 0x1000 {
        assert 32 <= c / 64 < 64;
      } else if 0xD000 <= c < 0xE000 {
        assert c / 4096 == 13;
        assert 0x340 <= c / 64 < 0x360;
      }
    } else {
      assert 0 <= c / 262144 <= 4;
      if c < 0x40000 {
        assert c / 262144 == 0;
        assert 16 <= c / 4096 < 64;
      } else if 0x100000 <= c {
        assert c / 262144 == 4;
        assert 256 <= c / 4096 < 272;
      }
    }
    assert s[CharWidth(s)..] == [];
  }

  /** The scalar value of a two-, three- or four-octet UTF8-char: the payload
      bits of the lead octet followed by six bits from each tail octet. */
  function Scalar2(b0: byte, b1: byte): nat
    requires 0xC0 <= b0 && 0x80 <= b1
  {
    (b0 - 0xC0) * 64 + (b1 - 0x80)
  }

  function Scalar3(b0: byte, b1: byte, b2: byte): nat
    requires 0xE0 <= b0 && 0x80 <= b1 && 0x80 <= b2
  {
    ((b0 - 0xE0) * 64 + (b1 - 0x80)) * 64 + (b2 - 0x80)
  }

  function Scalar4(b0: byte, b1: byte, b2: byte, b3: byte): nat
    requires 0xF0 <= b0 && 0x80 <= b1 && 0x80 <= b2 && 0x80 <= b3
  {
    (((b0 - 0xF0) * 64 + (b1 - 0x80)) * 64 + (b2 - 0x80)) * 64 + (b3 - 0x80)
  }

  /** The scalar value that a well-formed UTF8-char at the head of `s` encodes. */
  function DecodeChar(s: seq<byte>): nat
    requires CharWidth(s) > 0
  {
    var w := CharWidth(s);
    if w == 1 then s[0] as nat
    else if w == 2 then Scalar2(s[0], s[1])
    else if w == 3 then Scalar3(s[0], s[1], s[2])
    else Scalar4(s[0], s[1], s[2], s[3])
  }

  lemma Scalar2Range(b0: byte, b1: byte)
    requires 0xC2 <= b0 <= 0xDF && IsTail(b1)
    ensures var c := Scalar2(b0, b1);
      0x80 <= c < 0x800 && 0xC0 + c / 64 == b0 && 0x80 + c % 64 == b1
  {
  }

  lemma Scalar3Range(b0: byte, b1: byte, b2: byte)
    requires 0xE0 <= b0 <= 0xEF && SecondOfThree(b0, b1) && IsTail(b2)
    ensures var c := Scalar3(b0, b1, b2);
      && 0x800 <= c < 0x10000 && !(0xD800 <= c <= 0xDFFF)
      && 0xE0 + c / 4096 == b0 && 0x80 + (c / 64) % 64 == b1 && 0x80 + c % 64 == b2
  {
    var c := Scalar3(b0, b1, b2);
    var hi, mid, lo := b0 as int - 0xE0, b1 as int - 0x80, b2 as int - 0x80;
    assert c / 64 == hi * 64 + mid && c % 64 == lo;
    assert c / 4096 == hi;
  }

  lemma Scalar4Range(b0: byte, b1: byte, b2: byte, b3: byte)
    requires 0xF0 <= b0 <= 0xF4 && SecondOfFour(b0, b1) && IsTail(b2) && IsTail(b3)
    ensures var c := Scalar4(b0, b1, b2, b3);
      && 0x10000 <= c <= 0x10FFFF
      && 0xF0 + c / 262144 == b0 && 0x80 + (c / 4096) % 64 == b1
      && 0x80 + (c / 64) % 64 == b2 && 0x80 + c % 64 == b3
  {
    var c := Scalar4(b0, b1, b2, b3);
    var hi, m1, m2, lo := b0 as int - 0xF0, b1 as int - 0x80, b2 as int - 0x80, b3 as int - 0x80;
    assert c / 64 == (hi * 64 + m1) * 64 + m2 && c % 64 == lo;
    assert c / 4096 == hi * 64 + m1;
    assert c / 262144 == hi;
  }

  /** Conversely, every UTF8-char the section 4 syntax accepts is the
      section 3 encoding of a scalar value: overlong forms and surrogates
      are excluded by the syntax. */
  lemma DecodeCharEncodes(s: seq<byte>)
    requires CharWidth(s) > 0
    ensures IsScalar(DecodeChar(s))
    ensures EncodeScalar(DecodeChar(s)) == s[..CharWidth(s)]
  {
    var w := CharWidth(s);
    if w == 2 {
      Scalar2Range(s[0], s[1]);
    } else if w == 3 {
      Scalar3Range(s[0], s[1], s[2]);
    } else if w == 4 {
      Scalar4Range(s[0], s[1], s[2], s[3]);
    }
  }

  /** Decoding the encoding of a scalar value gives it back. */
  lemma EncodeScalarDecodes(c: nat)
    requires IsScalar(c)
    ensures CharWidth(EncodeScalar(c)) == |EncodeScalar(c)|
    ensures DecodeChar(EncodeScalar(c)) == c
  {
    EncodeScalarValid(c);
    if 0x80 <= c < 0x800 {
      Encode2Decodes(c);
    } else if 0x800 <= c < 0x10000 {
      Encode3Decodes(c);
    } else if 0x10000 <= c {
      Encode4Decodes(c);
    }
  }

  lemma Encode2Decodes(c: nat)
    requires 0x80 <= c < 0x800
    ensures Scalar2(0xC0 + c / 64, 0x80 + c % 64) == c
  {
  }

  lemma Encode3Decodes(c: nat)
    requires 0x800 <= c < 0x10000
    ensures Scalar3(0xE0 + c / 4096, 0x80 + (c / 64) % 64, 0x80 + c % 64) == c
  {
    assert (c / 4096) * 64 + (c / 64) % 64 == c / 64;
  }

  lemma Encode4Decodes(c: nat)
    requires 0x10000 <= c <= 0x10FFFF
    ensures Scalar4(0xF0 + c / 262144, 0x80 + (c / 4096) % 64, 0x80 + (c / 64) % 64, 0x80 + c % 64) == c
  {
    assert (c / 262144) * 64 + (c / 4096) % 64 == c / 4096;
    assert (c / 4096) * 64 + (c / 64) % 64 == c / 64;
  }

  /** Every element of `cs` is a scalar value. */
  predicate AllScalars(cs: seq<nat>)
  {
    forall i :: 0 <= i < |cs| ==> IsScalar(cs[i])
  }

  /** The UTF-8 encoding of a sequence of scalar values. */
  function EncodeAll(cs: seq<nat>): seq<byte>
    requires AllScalars(cs)
  {
    if cs == [] then [] else EncodeScalar(cs[0]) + EncodeAll(cs[1..])
  }

  /** A sequence is its prefix followed by its suffix. */
  lemma SplitAt(s: seq<byte>, w: nat)
    requires w <= |s|
    ensures s[..w] + s[w..] == s
  {
  }

  /** Encoding one more scalar value in front. */
  lemma EncodeCons(c: nat, cs: seq<nat>, head: seq<byte>, tail: seq<byte>)
    requires IsScalar(c) && AllScalars(cs) && EncodeScalar(c) == head && EncodeAll(cs) == tail
    ensures EncodeAll([c] + cs) == head + tail
  {
    assert ([c] + cs)[1..] == cs;
  }

  /** The scalar values a well-formed string encodes, in order. */
  function DecodeAll(s: seq<byte>): (cs: seq<nat>)
    requires ValidUtf8(s)
    ensures AllScalars(cs)
    decreases |s|
  {
    if s == [] then []
    else
      var w := CharWidth(s);
      DecodeCharEncodes(s);
      [DecodeChar(s)] + DecodeAll(s[w..])
  }

  /** Every well-formed string is the encoding of the scalar values it decodes to. */
  lemma {:induction false} DecodeAllEncodes(s: seq<byte>)
    requires ValidUtf8(s)
    ensures EncodeAll(DecodeAll(s)) == s
    decreases |s|
  {
    if s != [] {
      var w := CharWidth(s);
      DecodeCharEncodes(s);
      DecodeAllEncodes(s[w..]);
      EncodeCons(DecodeChar(s), DecodeAll(s[w..]), s[..w], s[w..]);
      SplitAt(s, w);
    }
  }

  /** The scalar value at the head of a string depends only on its first UTF8-char. */
  lemma DecodeCharPrefix(a: seq<byte>, b: seq<byte>)
    requires CharWidth(a) > 0
    ensures CharWidth(a + b) == CharWidth(a) && DecodeChar(a + b) == DecodeChar(a)
  {
    CharWidthPrefix(a, b);
    var w := CharWidth(a);
    assert forall i :: 0 <= i < w ==> (a + b)[i] == a[i];
  }

  /** A whole UTF8-char followed by a well-formed string is well formed,
      and decodes to that char's scalar value followed by the string's. */
  lemma DecodeConcat(head: seq<byte>, rest: seq<byte>)
    requires 0 < CharWidth(head) == |head| && ValidUtf8(rest)
    ensures ValidUtf8(head + rest)
    ensures DecodeAll(head + rest) == [DecodeChar(head)] + DecodeAll(rest)
  {
    DecodeCharPrefix(head, rest);
    assert (head + rest)[|head|..] == rest;
  }

  /** The encoding of any sequence of scalar values is well formed, and
      decodes back to that sequence. */
  lemma {:induction false} EncodeAllDecodes(cs: seq<nat>)
    requires AllScalars(cs)
    ensures ValidUtf8(EncodeAll(cs)) && DecodeAll(EncodeAll(cs)) == cs
  {
    if cs != [] {
      EncodeAllDecodes(cs[1..]);
      EncodeScalarDecodes(cs[0]);
      DecodeConcat(EncodeScalar(cs[0]), EncodeAll(cs[1..]));
      assert cs == [cs[0]] + cs[1..];
    }
  }

  /** Well-formed UTF-8 is exactly the set of encodings of scalar-value sequences. */
  lemma ValidIffEncoding(s: seq<byte>)
    ensures ValidUtf8(s) <==> exists cs :: AllScalars(cs) && EncodeAll(cs) == s
  {
    if ValidUtf8(s) {
      DecodeAllEncodes(s);
    }
    if exists cs :: AllScalars(cs) && EncodeAll(cs) == s {
      var cs :| AllScalars(cs) && EncodeAll(cs) == s;
      EncodeAllDecodes(cs);
    }
  }
}
