/** `bytes_to_int` and `int_to_bytes`: big-endian integers of either
    signedness, two's complement when signed. */
module Integers {
  import opened BigEndian
  import opened Results

  /** `v` is representable in `length` bytes: unsigned in [0, 256^length),
      two's complement in [-256^length / 2, 256^length / 2). The signed bound
      is written doubled so that the zero-width case, where only 0 fits,
      needs no special case. */
  predicate Fits(v: int, length: nat, signed: bool) {
    if signed then -(Pow256(length) as int) <= 2 * v < Pow256(length)
    else 0 <= v < Pow256(length)
  }

  /** `int.from_bytes(b, byteorder='big', signed=signed)`. */
  function BytesToInt(b: seq<Byte>, signed: bool): (r: int)
    ensures Fits(r, |b|, signed)
    ensures r % Pow256(|b|) == BeUint(b)
    ensures r < 0 <==> signed && |b| > 0 && b[0] >= 128
  {
    BytesToIntFacts(b, signed);
    if signed && |b| > 0 && b[0] >= 128 then BeUint(b) - Pow256(|b|) else BeUint(b)
  }

  /** The range, residue and sign facts behind `BytesToInt`'s contract. */
  lemma BytesToIntFacts(b: seq<Byte>, signed: bool)
    ensures var r := if signed && |b| > 0 && b[0] >= 128 then BeUint(b) - Pow256(|b|) else BeUint(b);
      && Fits(r, |b|, signed)
      && r % Pow256(|b|) == BeUint(b)
      && (r < 0 <==> signed && |b| > 0 && b[0] >= 128)
  {
    var p := Pow256(|b|);
    var u := BeUint(b);
    if |b| > 0 {
      TopBit(b);
    }
    if signed && |b| > 0 && b[0] >= 128 {
      ModShiftDown(u, p);
    } else {
      ModSmall(u, p);
    }
  }

  /** The top bit of the first byte decides which half of the range the
      value lies in. */
  lemma TopBit(b: seq<Byte>)
    requires |b| > 0
    ensures b[0] >= 128 <==> 2 * BeUint(b) >= Pow256(|b|)
  {
    BeUintLeadingByte(b);
    var q := Pow256(|b| - 1);
    var u := BeUint(b);
    if b[0] >= 128 {
      MulMonotonic(128, b[0], q);
    } else {
      MulMonotonic(b[0] + 1, 128, q);
    }
  }

  lemma MulMonotonic(a: nat, c: nat, q: nat)
    requires a <= c
    ensures a * q <= c * q
  {
  }

  lemma ModSmall(u: int, p: int)
    requires 0 <= u < p
    ensures u % p == u
  {
  }

  lemma ModShiftDown(u: int, p: int)
    requires 0 <= u < p
    ensures (u - p) % p == u
  {
  }

  /** `int.to_bytes(v, length, byteorder='big', signed=signed)`: a negative
      width raises ValueError, a value that does not fit raises
      OverflowError. */
  function IntToBytes(v: int, length: int, signed: bool): (r: Result<seq<Byte>>)
    ensures length < 0 ==> r == Fail(ValueError)
    ensures r.Ok? ==> |r.value| == length && BytesToInt(r.value, signed) == v
    ensures length >= 0 && r.Fail? ==>
      r.error == OverflowError &&
      forall b: seq<Byte> :: |b| == length ==> BytesToInt(b, signed) != v
    ensures !signed && length >= 0 ==> (r.Ok? <==> 0 <= v < Pow256(length))
  {
    if length < 0 then Fail(ValueError)
    else if !Fits(v, length, signed) then Fail(OverflowError)
    else
      var u := if v < 0 then v + Pow256(length) else v;
      var b := BeEncode(u, length);
      assert length > 0 ==> b[0] * Pow256(length - 1) <= u < (b[0] + 1) * Pow256(length - 1) by {
        if length > 0 { BeUintLeadingByte(b); }
      }
      Ok(b)
  }

  /** Reading any byte sequence and writing it back at its own width and
      signedness gives the same sequence. */
  lemma BytesToIntRoundTrip(b: seq<Byte>, signed: bool)
    ensures IntToBytes(BytesToInt(b, signed), |b|, signed) == Ok(b)
  {
    var v := BytesToInt(b, signed);
    var r := IntToBytes(v, |b|, signed);
    assert r.Ok?;
    var c := r.value;
    assert BeUint(c) == v % Pow256(|b|) == BeUint(b);
    BeUintInjective(b, c);
  }
}
