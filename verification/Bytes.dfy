/** Little-endian encoding of machine words, as C and Python's struct module lay them out. */
module Bytes {
  type Byte = n: nat | n < 256

  function Pow256(k: nat): (p: nat)
    ensures p > 0
  {
    if k == 0 then 1 else 256 * Pow256(k - 1)
  }

  /** n as k bytes, least significant first. */
  function ToLE(n: nat, k: nat): (s: seq<Byte>)
    ensures |s| == k
    decreases k, n
  {
    if k == 0 then [] else [n % 256] + ToLE(n / 256, k - 1)
  }

  function FromLE(s: seq<Byte>): nat
  {
    if s == [] then 0 else s[0] + 256 * FromLE(s[1..])
  }

  /** Reading back what was written gives the word, cut to the field's width. */
  lemma {:induction false} LERoundTrip(n: nat, k: nat)
    requires n < Pow256(k)
    ensures FromLE(ToLE(n, k)) == n
    decreases k
  {
    if k > 0 {
      assert n / 256 < Pow256(k - 1) by { assert n < 256 * Pow256(k - 1); }
      LERoundTrip(n / 256, k - 1);
      assert ToLE(n, k)[1..] == ToLE(n / 256, k - 1);
    }
  }

  /** And every byte string is the encoding of the word read from it. */
  lemma {:induction false} LEInverse(s: seq<Byte>)
    ensures FromLE(s) < Pow256(|s|) && ToLE(FromLE(s), |s|) == s
  {
    if s != [] {
      LEInverse(s[1..]);
      assert FromLE(s) == s[0] + 256 * FromLE(s[1..]);
      assert FromLE(s) % 256 == s[0] && FromLE(s) / 256 == FromLE(s[1..]);
      assert s == [s[0]] + s[1..];
    }
  }

  lemma Widths()
    ensures Pow256(4) == 0x1_0000_0000 && Pow256(8) == 0x1_0000_0000_0000_0000
  {
    assert Pow256(2) == 65536;
    assert Pow256(4) == 256 * (256 * Pow256(2));
    assert Pow256(6) == 256 * (256 * Pow256(4));
  }

  /** A 64-bit field reads back, in both directions. */
  lemma Word64(n: nat)
    requires n < 0x1_0000_0000_0000_0000
    ensures FromLE(ToLE(n, 8)) == n
  {
    Widths();
    LERoundTrip(n, 8);
  }

  lemma Field64(s: seq<Byte>)
    requires |s| == 8
    ensures FromLE(s) < 0x1_0000_0000_0000_0000 && ToLE(FromLE(s), 8) == s
  {
    Widths();
    LEInverse(s);
  }

  /** Byte i of a word, least significant first. */
  function ByteAt(n: nat, i: nat): Byte
    decreases i
  {
    if i == 0 then n % 256 else ByteAt(n / 256, i - 1)
  }

  lemma {:induction false} FromLEAt(s: seq<Byte>, i: nat)
    requires i < |s|
    ensures ByteAt(FromLE(s), i) == s[i]
  {
    assert FromLE(s) % 256 == s[0] && FromLE(s) / 256 == FromLE(s[1..]);
    if i > 0 { FromLEAt(s[1..], i - 1); }
  }
}
