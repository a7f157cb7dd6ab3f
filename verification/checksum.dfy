/** `packet_checksum`: the 16-bit word-sum checksum that MISB ST 0601
    carries in its Tag 1, computed over a packet whose last two bytes are
    reserved for the checksum itself. */
module Checksum {
  import opened BigEndian
  import opened Results

  /** `struct.unpack('>nH', p)`: the big-endian 16-bit words of an
      even-length sequence, in order. */
  function Words(p: seq<Byte>): (ws: seq<nat>)
    requires |p| % 2 == 0
    ensures |ws| * 2 == |p|
    ensures forall i :: 0 <= i < |ws| ==> ws[i] == p[2 * i] as int * 256 + p[2 * i + 1]
  {
    if |p| == 0 then []
    else
      var n := |p|;
      var init := Words(p[..n - 2]);
      init + [p[n - 2] as int * 256 + p[n - 1]]
  }

  /** `sum(...)` over the unpacked words. */
  function Sum(ws: seq<nat>): nat
  {
    if |ws| == 0 then 0 else Sum(ws[..|ws| - 1]) + ws[|ws| - 1]
  }

  /** The sum is additive over concatenation, so the order in which the
      words are folded does not matter. */
  lemma {:induction false} SumAppend(a: seq<nat>, b: seq<nat>)
    ensures Sum(a + b) == Sum(a) + Sum(b)
  {
    if |b| > 0 {
      SumAppend(a, b[..|b| - 1]);
      assert (a + b)[..|a + b| - 1] == a + b[..|b| - 1];
    } else {
      assert a + b == a;
    }
  }

  /** Every word is at most the sum. */
  lemma {:induction false} SumBoundsTerms(ws: seq<nat>, i: nat)
    requires i < |ws|
    ensures ws[i] <= Sum(ws)
  {
    if i < |ws| - 1 {
      SumBoundsTerms(ws[..|ws| - 1], i);
    }
  }

  /** Reference definition of the checksum's sum, byte by byte: a byte at
      an even offset is the high byte of a word, one at an odd offset the
      low byte. */
  function WeightedSum(p: seq<Byte>): nat
  {
    if |p| == 0 then 0
    else WeightedSum(p[..|p| - 1]) + Weighted(p[|p| - 1], |p| - 1)
  }

  /** Byte `x` at offset `i` of the payload, at its weight in the sum. */
  function Weighted(x: int, i: nat): int
  {
    if i % 2 == 0 then 256 * x else x
  }

  /** Folding the words of an even-length payload adds up every byte at its
      positional weight. */
  lemma {:induction false} WordSumIsWeightedSum(p: seq<Byte>)
    requires |p| % 2 == 0
    ensures Sum(Words(p)) == WeightedSum(p)
  {
    if |p| > 0 {
      WordSumIsWeightedSum(p[..|p| - 2]);
      SumOfWordsStep(p);
      WeightedSumStep(p);
    }
  }

  /** The last word of an even-length payload is its last two bytes. */
  lemma SumOfWordsStep(p: seq<Byte>)
    requires |p| >= 2 && |p| % 2 == 0
    ensures Sum(Words(p)) == Sum(Words(p[..|p| - 2])) + p[|p| - 2] as int * 256 + p[|p| - 1]
  {
    var ws := Words(p);
    assert ws[..|ws| - 1] == Words(p[..|p| - 2]);
  }

  /** The last two bytes of an even-length payload sit at an even and an odd
      offset. */
  lemma WeightedSumStep(p: seq<Byte>)
    requires |p| >= 2 && |p| % 2 == 0
    ensures WeightedSum(p) == WeightedSum(p[..|p| - 2]) + p[|p| - 2] as int * 256 + p[|p| - 1]
  {
    var n := |p|;
    var high := p[..n - 1];
    assert high[..n - 2] == p[..n - 2];
    var a := WeightedSum(p[..n - 2]);
    var x, y := p[n - 2] as int, p[n - 1] as int;
    var wx, wy := Weighted(x, n - 2), Weighted(y, n - 1);
    assert wx == 256 * x by {
      assert (n - 2) % 2 == 0;
    }
    assert wy == y by {
      assert (n - 1) % 2 == 1;
    }
    assert WeightedSum(high) == a + wx;
    assert WeightedSum(p) == WeightedSum(high) + wy;
  }

  /** `packet_checksum(data)`. Fewer than two bytes make the word count
      negative, which `struct.unpack` rejects. An odd trailing payload byte
      is added as the high byte of a word, and the sum is kept to 16 bits
      by `& 0xFFFF`. */
  function PacketChecksum(data: seq<Byte>): (r: Result<seq<Byte>>)
    ensures r.Ok? <==> |data| >= 2
    ensures r.Fail? ==> r.error == StructError
    ensures r.Ok? ==> |r.value| == 2
    ensures r.Ok? ==> BeUint(r.value) == WeightedSum(data[..|data| - 2]) % 65536
  {
    if |data| < 2 then Fail(StructError)
    else
      var length := |data| - 2;
      var odd := length % 2;
      var even := data[..length - odd];
      var words := Sum(Words(even)) + (if odd == 1 then data[length - 1] as int * 256 else 0);
      WordSumIsWeightedSum(even);
      assert words == WeightedSum(data[..length]) by {
        assert odd == 1 ==> data[..length][..length - 1] == even;
        assert odd == 0 ==> data[..length] == even;
      }
      Ok(BeEncode(words % 65536, 2))
  }

  /** The checksum is the two-byte big-endian form of the weighted sum. */
  lemma ChecksumValue(data: seq<Byte>)
    requires |data| >= 2
    ensures PacketChecksum(data) == Ok(BeEncode(WeightedSum(data[..|data| - 2]) % 65536, 2))
  {
    var r := PacketChecksum(data).value;
    BeUintInjective(r, BeEncode(WeightedSum(data[..|data| - 2]) % 65536, 2));
  }

  /** The two trailing bytes, where the checksum itself goes, do not take
      part in it. */
  lemma ChecksumIgnoresTrailer(a: seq<Byte>, b: seq<Byte>)
    requires |a| == |b| >= 2
    requires a[..|a| - 2] == b[..|b| - 2]
    ensures PacketChecksum(a) == PacketChecksum(b)
  {
    BeUintInjective(PacketChecksum(a).value, PacketChecksum(b).value);
  }

  /** Changing any one payload byte changes the checksum. */
  lemma ChecksumDetectsSingleByteChange(data: seq<Byte>, i: nat, x: Byte)
    requires i < |data| - 2
    requires x != data[i]
    ensures PacketChecksum(data[i := x]) != PacketChecksum(data)
  {
    var n := |data| - 2;
    var changed := data[i := x];
    var p := data[..n];
    assert changed[..n] == p[i := x];
    WeightedSumUpdate(p, i, x);
    var d := Weighted(x as int - data[i], i);
    ModShiftChanges(WeightedSum(p), d, 65536);
    var a := WeightedSum(p) % 65536;
    var b := WeightedSum(changed[..n]) % 65536;
    assert a != b;
    var ea, eb := BeEncode(a, 2), BeEncode(b, 2);
    assert ea != eb by {
      assert BeUint(ea) != BeUint(eb);
    }
    ChecksumValue(data);
    ChecksumValue(changed);
  }

  /** Replacing byte `i` moves the weighted sum by the change times the
      byte's weight. */
  lemma {:induction false} WeightedSumUpdate(p: seq<Byte>, i: nat, x: Byte)
    requires i < |p|
    ensures WeightedSum(p[i := x]) == WeightedSum(p) + Weighted(x as int - p[i], i)
  {
    var n := |p|;
    var q := p[i := x];
    if i < n - 1 {
      assert q[..n - 1] == p[..n - 1][i := x];
      WeightedSumUpdate(p[..n - 1], i, x);
    } else {
      assert q[..n - 1] == p[..n - 1];
    }
  }

  /** Adding a non-zero amount smaller than the modulus changes the
      residue. */
  lemma ModShiftChanges(s: int, d: int, m: int)
    requires m > 0
    requires -m < d < m && d != 0
    ensures (s + d) % m != s % m
  {
    var q1, r1 := (s + d) / m, (s + d) % m;
    var q2, r2 := s / m, s % m;
    if r1 == r2 {
      var k := q1 - q2;
      assert d == q1 * m - q2 * m;
      assert d == k * m;
      if k >= 1 {
        MulAtLeast(k, m);
      } else if k <= -1 {
        MulAtLeast(-k, m);
      }
    }
  }

  lemma MulAtLeast(k: int, m: int)
    requires k >= 1 && m > 0
    ensures k * m >= m
  {
  }

  /** An example: words 0x0001 and 0x0002 sum to 0x0003, whatever
      the two placeholder bytes hold. */
  lemma ChecksumExample(x: Byte, y: Byte)
    ensures PacketChecksum([0x00, 0x01, 0x00, 0x02, x, y]) == Ok([0x00, 0x03])
  {
    var data := [0x00, 0x01, 0x00, 0x02, x, y];
    var r := PacketChecksum(data).value;
    assert data[..4] == [0x00, 0x01, 0x00, 0x02];
    assert WeightedSum(data[..4]) == 3 by {
      assert [0x00, 0x01, 0x00, 0x02][..3] == [0x00, 0x01, 0x00];
      assert [0x00, 0x01, 0x00][..2] == [0x00, 0x01];
      assert [0x00, 0x01][..1] == [0x00];
    }
    BeUintInjective(r, [0x00, 0x03]);
  }
}
