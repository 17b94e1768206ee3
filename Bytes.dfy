/** Octets and big-endian unsigned integers read from them. */
module Bytes {

  /** One octet of the input buffer (Rust `u8`). */
  type byte = x: int | 0 <= x < 256

  /** 256 to the power `w`: one more than the largest `w`-octet value. */
  function Pow256(w: nat): (p: nat)
    ensures p >= 1
  {
    if w == 0 then 1 else 256 * Pow256(w - 1)
  }

  /** The big-endian value of `s`, most significant octet first:
      the fold `v * 256 + b` over the octets, starting from 0. */
  function BeValue(s: seq<byte>): nat
  {
    if s == [] then 0 else BeValue(s[..|s| - 1]) * 256 + s[|s| - 1]
  }

  /** The `w`-octet big-endian encoding of `n` (the low `w` octets of `n`). */
  function BeEncode(n: nat, w: nat): (s: seq<byte>)
    ensures |s| == w
  {
    if w == 0 then [] else BeEncode(n / 256, w - 1) + [n % 256]
  }

  /** A `w`-octet value is below 256^w. */
  lemma {:induction false} BeValueBound(s: seq<byte>)
    ensures BeValue(s) < Pow256(|s|)
  {
    if s != [] {
      var init := s[..|s| - 1];
      BeValueBound(init);
      assert BeValue(init) + 1 <= Pow256(|s| - 1);
      assert BeValue(init) * 256 + 256 <= Pow256(|s| - 1) * 256;
    }
  }

  /** Decoding an encoding gives the value back, when it fits the width. */
  lemma {:induction false} BeRoundTrip(n: nat, w: nat)
    requires n < Pow256(w)
    ensures BeValue(BeEncode(n, w)) == n
  {
    if w > 0 {
      var s := BeEncode(n, w);
      assert n / 256 < Pow256(w - 1);
      BeRoundTrip(n / 256, w - 1);
      assert s[..|s| - 1] == BeEncode(n / 256, w - 1);
      assert s[|s| - 1] == n % 256;
    }
  }

  /** A one-octet length is the octet itself. */
  lemma BeValue1(s: seq<byte>)
    requires |s| == 1
    ensures BeValue(s) == s[0]
  {
    assert s[..0] == [];
  }

  /** A two-octet length: high octet times 256 plus low octet. */
  lemma BeValue2(s: seq<byte>)
    requires |s| == 2
    ensures BeValue(s) == 256 * (s[0] as int) + s[1]
  {
    BeValue1(s[..1]);
  }

  /** A three-octet length. */
  lemma BeValue3(s: seq<byte>)
    requires |s| == 3
    ensures BeValue(s) == 65536 * (s[0] as int) + 256 * (s[1] as int) + s[2]
  {
    BeValue2(s[..2]);
  }

  /** Extending the range by one octet is one step of the fold. */
  lemma BeValueSnoc(s: seq<byte>, b: byte)
    ensures BeValue(s + [b]) == BeValue(s) * 256 + b
  {
    assert (s + [b])[..|s|] == s;
  }

  /** Encoding a decoded value at its own width gives the octets back. */
  lemma {:induction false} BeEncodeValue(s: seq<byte>)
    ensures BeEncode(BeValue(s), |s|) == s
  {
    if s != [] {
      var init := s[..|s| - 1];
      var v := BeValue(s);
      BeEncodeValue(init);
      assert v / 256 == BeValue(init) && v % 256 == s[|s| - 1];
      assert s == init + [s[|s| - 1]];
    }
  }
}
