/** `ber_encode` and `ber_decode`: the BER definite-length field of a KLV
    triplet (SMPTE ST 336), short form for values below 128 and long form
    (a marker byte 128 + w followed by w big-endian value bytes) above. */
module Ber {
  import opened BigEndian
  import opened Results
  import opened Integers

  function Pow2(n: nat): (r: nat)
    ensures r >= 1
  {
    if n == 0 then 1 else 2 * Pow2(n - 1)
  }

  lemma {:induction false} Pow2Monotonic(m: nat, n: nat)
    requires m <= n
    ensures Pow2(m) <= Pow2(n)
  {
    if m < n {
      Pow2Monotonic(m, n - 1);
    }
  }

  lemma {:induction false} Pow256IsPow2(k: nat)
    ensures Pow256(k) == Pow2(8 * k)
  {
    if k > 0 {
      Pow256IsPow2(k - 1);
      var n := 8 * (k - 1);
      assert Pow2(n + 8) == 256 * Pow2(n) by {
        assert Pow2(n + 8) == 2 * Pow2(n + 7);
        assert Pow2(n + 7) == 2 * Pow2(n + 6);
        assert Pow2(n + 6) == 2 * Pow2(n + 5);
        assert Pow2(n + 5) == 2 * Pow2(n + 4);
        assert Pow2(n + 4) == 2 * Pow2(n + 3);
        assert Pow2(n + 3) == 2 * Pow2(n + 2);
        assert Pow2(n + 2) == 2 * Pow2(n + 1);
      }
    }
  }

  /** `int.bit_length()`: the number of binary digits of `v`, 0 for 0. */
  function BitLength(v: nat): (k: nat)
    ensures v == 0 ==> k == 0
    ensures v < Pow2(k)
    ensures v > 0 ==> k >= 1 && Pow2(k - 1) <= v
  {
    if v == 0 then 0 else 1 + BitLength(v / 2)
  }

  /** The byte width `ber_encode` gives a positive value,
      `((bit_length - 1) // 8) + 1`: the fewest bytes that hold it. */
  function ByteLength(v: nat): (w: nat)
    requires v > 0
    ensures w >= 1
    ensures Pow256(w - 1) <= v < Pow256(w)
  {
    var k := BitLength(v);
    var w := (k - 1) / 8 + 1;
    Pow256IsPow2(w - 1);
    Pow256IsPow2(w);
    Pow2Monotonic(8 * (w - 1), k - 1);
    Pow2Monotonic(k, 8 * w);
    w
  }

  /** At most one width holds a positive value without a leading zero byte. */
  lemma ByteLengthUnique(v: nat, n: nat)
    requires v > 0 && n >= 1
    requires Pow256(n - 1) <= v < Pow256(n)
    ensures ByteLength(v) == n
  {
    var w := ByteLength(v);
    if w < n {
      Pow256Monotonic(w, n - 1);
    } else if w > n {
      Pow256Monotonic(n, w - 1);
    }
  }

  /** `int_to_bytes(m)` at its default width of one byte. */
  lemma SingleByte(m: int)
    ensures 0 <= m < 256 ==> IntToBytes(m, 1, false) == Ok([m])
    ensures m >= 256 ==> IntToBytes(m, 1, false) == Fail(OverflowError)
  {
    assert Pow256(1) == 256;
    if 0 <= m < 256 {
      var r := IntToBytes(m, 1, false);
      assert r.Ok?;
      var e := r.value;
      assert |e| == 1 && BytesToInt(e, false) == m;
      assert e[..0] == [];
      assert BeUint(e) == e[0];
      assert e == [e[0]];
    }
  }

  /** Writing a positive value at its `ByteLength` succeeds, without a
      leading zero byte. */
  lemma MinimalPayload(v: nat)
    requires v > 0
    ensures var p := IntToBytes(v, ByteLength(v), false);
      && p.Ok?
      && |p.value| == ByteLength(v)
      && BeUint(p.value) == v
      && p.value[0] != 0
  {
    var p := IntToBytes(v, ByteLength(v), false).value;
    BeUintLeadingByte(p);
  }

  /** The long form fits exactly when the width fits in the marker's low
      seven bits, that is when the value is below 256^127. */
  lemma WidthFitsMarker(v: nat)
    requires v > 0
    ensures ByteLength(v) <= 127 <==> v < Pow256(127)
  {
    WidthFits(v, 127);
  }

  /** A positive value needs at most `n` bytes exactly when it is below
      256^n. */
  lemma WidthFits(v: nat, n: nat)
    requires v > 0
    ensures ByteLength(v) <= n <==> v < Pow256(n)
  {
    var w := ByteLength(v);
    if w <= n {
      Pow256Monotonic(w, n);
    } else {
      Pow256Monotonic(n, w - 1);
    }
  }

  /** `ber_encode(v)`. Negative values and values needing more than 127
      bytes raise OverflowError, from `int_to_bytes` with its default
      width of one byte. A value needing exactly 127 bytes gets the marker
      0xFF, which section 8.1.3.5 c) of ITU-T X.690 reserves. */
  function BerEncode(v: int): (r: Result<seq<Byte>>)
    ensures r.Ok? <==> 0 <= v && (v < 128 || ByteLength(v) <= 127)
    ensures r.Fail? ==> r.error == OverflowError
    ensures 0 <= v < 128 ==> r == Ok([v])
    ensures 128 <= v && r.Ok? ==>
      var e := r.value;
      && |e| >= 2
      && e[0] == 127 + |e|
      && e[1] != 0
      && BeUint(e[1..]) == v
      && Pow256(|e| - 2) <= v
      && |e| == 1 + ByteLength(v)
  {
    if v < 128 then
      SingleByte(v);
      IntToBytes(v, 1, false)
    else
      var w := ByteLength(v);
      WidthFitsMarker(v);
      SingleByte(w + 128);
      MinimalPayload(v);
      var marker :- IntToBytes(w + 128, 1, false);
      var payload := IntToBytes(v, w, false).value;
      assert (marker + payload)[1..] == payload;
      Ok(marker + payload)
  }

  /** What the value of the whole buffer says about its first byte. */
  lemma WholeValue(b: seq<Byte>)
    ensures |b| == 0 ==> BeUint(b) == 0
    ensures |b| == 1 ==> BeUint(b) == b[0]
    ensures |b| > 1 && b[0] >= 128 ==> BeUint(b) >= 128
  {
    if |b| == 1 {
      assert b[..0] == [];
    } else if |b| > 1 && b[0] >= 128 {
      BeUintLeadingByte(b);
      MulMonotonic(128, b[0], Pow256(|b| - 1));
    }
  }

  /** `ber_decode(b)`. The short-form test is on the value of the whole
      buffer, not on its first byte; the long form accepts leading zero
      value bytes; the empty buffer and the lone marker 0x80 decode to 0. */
  function BerDecode(b: seq<Byte>): (r: Result<nat>)
    ensures r.Ok? <==>
      || |b| == 0
      || (b[0] < 128 && |b| == 1)
      || (b[0] >= 128 && |b| == b[0] as int - 127)
    ensures r.Fail? ==> r.error == ValueError
    ensures |b| == 0 ==> r == Ok(0)
    ensures |b| == 1 && b[0] < 128 ==> r == Ok(b[0])
    ensures |b| > 0 && b[0] >= 128 && |b| == b[0] as int - 127 ==> r == Ok(BeUint(b[1..]))
  {
    WholeValue(b);
    var whole := BeUint(b);
    if whole < 128 then
      if |b| > 1 then Fail(ValueError) else Ok(whole)
    else
      if |b| != b[0] as int - 127 then Fail(ValueError) else Ok(BeUint(b[1..]))
  }

  /** Every value `BerEncode` accepts decodes back to itself. */
  lemma BerRoundTrip(v: int)
    requires BerEncode(v).Ok?
    ensures BerDecode(BerEncode(v).value) == Ok(v)
  {
  }

  /** A BER length field in the form `ber_encode` writes: one short-form
      byte, or a long form whose marker counts the bytes after it, whose
      first value byte is non-zero and whose value needs the long form. */
  predicate Canonical(b: seq<Byte>) {
    || (|b| == 1 && b[0] < 128)
    || (|b| >= 2 && b[0] as int == 127 + |b| && b[1] != 0 && BeUint(b[1..]) >= 128)
  }

  /** `ber_encode` writes exactly the canonical fields: `b` is the encoding
      of `v` if and only if `b` is canonical and decodes to `v`. */
  lemma BerEncodeIffCanonical(v: int, b: seq<Byte>)
    ensures BerEncode(v) == Ok(b) <==> Canonical(b) && BerDecode(b) == Ok(v)
  {
    if BerEncode(v) == Ok(b) {
      EncodingIsCanonical(v);
    }
    if Canonical(b) && BerDecode(b) == Ok(v) {
      CanonicalIsEncoding(b);
    }
  }

  lemma EncodingIsCanonical(v: int)
    requires BerEncode(v).Ok?
    ensures Canonical(BerEncode(v).value)
    ensures BerDecode(BerEncode(v).value) == Ok(v)
  {
  }

  lemma CanonicalIsEncoding(b: seq<Byte>)
    requires Canonical(b)
    ensures BerDecode(b).Ok?
    ensures BerEncode(BerDecode(b).value) == Ok(b)
  {
    if |b| == 1 {
      assert b == [b[0]];
    } else {
      CanonicalLongIsEncoding(b);
    }
  }

  lemma CanonicalLongIsEncoding(b: seq<Byte>)
    requires Canonical(b) && |b| >= 2
    ensures BerDecode(b) == Ok(BeUint(b[1..]))
    ensures BerEncode(BeUint(b[1..])) == Ok(b)
  {
    var p := b[1..];
    var v := BeUint(p);
    assert p[0] == b[1] != 0;
    assert Pow256(|p| - 1) <= v by {
      BeUintLeadingByte(p);
      MulMonotonic(1, p[0], Pow256(|p| - 1));
    }
    BerDecodeBound(b);
    var e := BerEncode(v).value;
    assert |e| == |b| by {
      ByteLengthUnique(v, |p|);
      ByteLengthUnique(v, |e| - 1);
    }
    assert e[0] == b[0];
    BeUintInjective(e[1..], p);
    assert e == [e[0]] + e[1..];
    assert b == [b[0]] + p;
  }

  /** Every value `ber_decode` returns can be encoded again: a long form has
      at most 127 value bytes. */
  lemma BerDecodeBound(b: seq<Byte>)
    requires BerDecode(b).Ok?
    ensures BerDecode(b).value < Pow256(127)
    ensures BerEncode(BerDecode(b).value).Ok?
  {
    var v := BerDecode(b).value;
    if |b| > 0 && b[0] >= 128 {
      Pow256Monotonic(|b| - 1, 127);
    }
    if v >= 128 {
      WidthFitsMarker(v);
    }
  }

  /** `ber_encode` writes the shortest non-empty field that `ber_decode`
      reads as `v`. */
  lemma BerEncodeShortest(v: nat, b: seq<Byte>)
    requires BerDecode(b) == Ok(v)
    ensures BerEncode(v).Ok?
    ensures |BerEncode(v).value| <= |b| || b == []
  {
    DecodedEncodes(v, b);
    if v >= 128 {
      LongFormValue(v, b);
      LongFormNoShorter(v, |b|, BerEncode(v).value);
    }
  }

  /** BerDecodeBound restated for a known value, keeping 256^127 out of
      the callers' context. */
  lemma DecodedEncodes(v: nat, b: seq<Byte>)
    requires BerDecode(b) == Ok(v)
    ensures BerEncode(v).Ok?
  {
    BerDecodeBound(b);
  }

  /** A long form of `n` bytes holds values below 256^(n-1), so `v`'s own
      encoding is no longer. */
  lemma LongFormNoShorter(v: nat, n: nat, e: seq<Byte>)
    requires 2 <= n && 128 <= v < Pow256(n - 1)
    requires BerEncode(v) == Ok(e)
    ensures |e| <= n
  {
    EncodedWidth(v, e);
    var m := |e| - 2;
    assert Pow256(m) <= v;
    NarrowerValue(v, n - 1, m);
  }

  /** A field that decodes to a value of at least 128 is a long form. */
  lemma LongFormValue(v: nat, b: seq<Byte>)
    requires BerDecode(b) == Ok(v) && 128 <= v
    ensures |b| >= 2 && v < Pow256(|b| - 1)
  {
    WholeValue(b);
    assert |b| >= 2 && b[0] >= 128;
    assert v == BeUint(b[1..]);
  }

  /** The long form of `v` has more value bytes than `v` strictly needs
      minus one. */
  lemma EncodedWidth(v: nat, e: seq<Byte>)
    requires 128 <= v && BerEncode(v) == Ok(e)
    ensures |e| >= 2 && Pow256(|e| - 2) <= v
  {
  }

  lemma NarrowerValue(v: nat, n: nat, m: nat)
    requires v < Pow256(n) && Pow256(m) <= v
    ensures m < n
  {
    if m >= n {
      Pow256Monotonic(n, m);
    }
  }

  /** Edge cases of `ber_decode`. The empty buffer reads as 0. The
      indefinite-length marker 0x80, which section 8.1.3.6 of ITU-T X.690
      defines and KLV does not use, reads as the definite length 0. The
      reserved initial octet 0xFF (section 8.1.3.5 c) is accepted as a
      127-byte long form. A long form with a leading zero value byte is
      accepted, as section 8.1.3.5 allows the sender. A short form followed
      by further bytes is rejected. */
  lemma BerDecodeQuirks()
    ensures BerDecode([]) == Ok(0)
    ensures BerDecode([0x80]) == Ok(0)
    ensures BerDecode([0xFF] + seq(127, _ => 0)) == Ok(0)
    ensures BerDecode([0x82, 0x00, 0x05]) == Ok(5)
    ensures BerDecode([0x81, 0x05]) == Ok(5)
    ensures BerDecode([0x00, 0x05]) == Fail(ValueError)
    ensures BerDecode([0x05, 0x00]) == Fail(ValueError)
  {
    assert [0x82, 0x00, 0x05][1..] == [0x00, 0x05];
    assert [0x81, 0x05][1..] == [0x05];
    ReservedMarkerAccepted(127);
  }

  /** A buffer of the marker 0xFF and 127 zero bytes decodes to 0. */
  lemma ReservedMarkerAccepted(n: nat)
    requires n == 127
    ensures BerDecode([0xFF] + seq(n, _ => 0)) == Ok(0)
  {
    var zeros: seq<Byte> := seq(n, _ => 0);
    var b := [0xFF] + zeros;
    assert b[0] == 0xFF && |b| == 0xFF - 127;
    assert b[1..] == zeros;
    ZerosValue(n);
  }

  /** Zero bytes read as 0 at any width. */
  lemma {:induction false} ZerosValue(n: nat)
    ensures BeUint(seq(n, _ => 0)) == 0
  {
    if n > 0 {
      ZerosValue(n - 1);
      var z: seq<Byte> := seq(n, _ => 0);
      assert z[..n - 1] == seq(n - 1, _ => 0);
    }
  }

  /** `ber_encode` writes the reserved initial octet 0xFF for every value
      that needs exactly 127 bytes. */
  lemma BerEncodeReservedMarker(v: nat)
    requires 128 <= v && ByteLength(v) == 127
    ensures BerEncode(v).Ok? && BerEncode(v).value[0] == 0xFF
  {
  }
}
