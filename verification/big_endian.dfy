/** Unsigned big-endian numbers over byte sequences: the arithmetic that
    `int.from_bytes` and `int.to_bytes` with `byteorder='big'` perform. */
module BigEndian {

  /** One element of a Python `bytes` object. */
  type Byte = x: int | 0 <= x < 256

  /** 256 to the power n: the number of distinct n-byte sequences. */
  function Pow256(n: nat): (r: nat)
    ensures r >= 1
  {
    if n == 0 then 1 else 256 * Pow256(n - 1)
  }

  lemma {:induction false} Pow256Monotonic(m: nat, n: nat)
    requires m <= n
    ensures Pow256(m) <= Pow256(n)
    ensures m < n ==> Pow256(m) < Pow256(n)
  {
    if m < n {
      Pow256Monotonic(m, n - 1);
    }
  }

  /** The unsigned value of `b` read most significant byte first. */
  function BeUint(b: seq<Byte>): (r: nat)
    ensures r < Pow256(|b|)
  {
    if |b| == 0 then 0
    else
      var high := BeUint(b[..|b| - 1]);
      assert high + 1 <= Pow256(|b| - 1);
      high * 256 + b[|b| - 1]
  }

  /** The n-byte big-endian representation of `v`. */
  function BeEncode(v: nat, n: nat): (r: seq<Byte>)
    requires v < Pow256(n)
    ensures |r| == n
    ensures BeUint(r) == v
  {
    if n == 0 then []
    else
      var high := BeEncode(v / 256, n - 1);
      assert (high + [v % 256])[..n - 1] == high;
      high + [v % 256]
  }

  /** Reading a sequence and writing the value back at the same width gives
      the sequence again: BeUint is injective at each width. */
  lemma {:induction false} BeEncodeBeUint(b: seq<Byte>)
    ensures BeEncode(BeUint(b), |b|) == b
  {
    if |b| > 0 {
      var init := b[..|b| - 1];
      var last := b[|b| - 1];
      BeEncodeBeUint(init);
      var v := BeUint(b);
      assert v == BeUint(init) * 256 + last;
      DivMod256(BeUint(init), last);
      assert BeEncode(v, |b|) == BeEncode(BeUint(init), |b| - 1) + [last];
      assert b == init + [last];
    }
  }

  lemma DivMod256(q: nat, r: nat)
    requires r < 256
    ensures (q * 256 + r) / 256 == q && (q * 256 + r) % 256 == r
  {
  }

  lemma BeUintInjective(a: seq<Byte>, b: seq<Byte>)
    requires |a| == |b|
    requires BeUint(a) == BeUint(b)
    ensures a == b
  {
    BeEncodeBeUint(a);
    BeEncodeBeUint(b);
  }

  /** The first byte carries weight 256^(|b|-1). */
  lemma {:induction false} BeUintSplitFirst(b: seq<Byte>)
    requires |b| > 0
    ensures BeUint(b) == b[0] * Pow256(|b| - 1) + BeUint(b[1..])
  {
    if |b| > 1 {
      var init := b[..|b| - 1];
      BeUintSplitFirst(init);
      assert init[1..] == b[1..][..|b| - 2];
      var x0, p, rest, last := b[0] as int, Pow256(|b| - 2), BeUint(init[1..]), b[|b| - 1] as int;
      assert BeUint(b) == BeUint(init) * 256 + last;
      assert BeUint(init) == x0 * p + rest;
      assert BeUint(b[1..]) == rest * 256 + last;
      assert Pow256(|b| - 1) == 256 * p;
      MulShift(x0, p);
    }
  }

  lemma MulShift(x: int, p: int)
    ensures x * (256 * p) == (x * p) * 256
  {
  }

  /** The first byte alone bounds the value from both sides. */
  lemma BeUintLeadingByte(b: seq<Byte>)
    requires |b| > 0
    ensures b[0] * Pow256(|b| - 1) <= BeUint(b) < (b[0] + 1) * Pow256(|b| - 1)
  {
    BeUintSplitFirst(b);
  }
}
