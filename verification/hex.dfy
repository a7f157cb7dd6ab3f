/** `bytes_to_hexstr` and `hexstr_to_bytes`: rendering bytes as two-digit
    upper-case hexadecimal text, and reading such text back after dropping
    every character that is not a letter or a digit. */
module Hex {
  import opened BigEndian
  import opened Results

  predicate IsHexDigit(c: char) {
    ('0' <= c <= '9') || ('a' <= c <= 'f') || ('A' <= c <= 'F')
  }

  /** A digit as `'{:02X}'` writes it: a decimal digit or A to F. */
  predicate IsUpperHexDigit(c: char) {
    ('0' <= c <= '9') || ('A' <= c <= 'F')
  }

  /** `str.isalnum` on one character, restricted to ASCII letters and
      digits. Python also keeps non-ASCII letters and digits here, and
      `bytes.fromhex` then rejects them. */
  predicate IsAlnum(c: char) {
    ('0' <= c <= '9') || ('a' <= c <= 'z') || ('A' <= c <= 'Z')
  }

  predicate NoAlnum(s: string) {
    forall i :: 0 <= i < |s| ==> !IsAlnum(s[i])
  }

  function HexValue(c: char): (n: nat)
    requires IsHexDigit(c)
    ensures n < 16
  {
    if '0' <= c <= '9' then c as int - '0' as int
    else if 'a' <= c <= 'f' then c as int - 'a' as int + 10
    else c as int - 'A' as int + 10
  }

  /** The upper-case digit for a value below 16. */
  function HexDigit(n: nat): (c: char)
    requires n < 16
    ensures IsUpperHexDigit(c) && HexValue(c) == n
  {
    if n < 10 then ('0' as int + n) as char else ('A' as int + n - 10) as char
  }

  /** `'{:02X}'.format(x)`. */
  function ByteToHex(x: Byte): (r: string)
    ensures |r| == 2
    ensures IsUpperHexDigit(r[0]) && IsUpperHexDigit(r[1])
    ensures HexValue(r[0]) * 16 + HexValue(r[1]) == x
  {
    [HexDigit(x / 16), HexDigit(x % 16)]
  }

  /** The list `['{:02X}'.format(x) for x in b]`. */
  function HexParts(b: seq<Byte>): (parts: seq<string>)
    ensures |parts| == |b|
    ensures forall k :: 0 <= k < |b| ==> parts[k] == ByteToHex(b[k])
  {
    if |b| == 0 then [] else [ByteToHex(b[0])] + HexParts(b[1..])
  }

  /** `sep.join(parts)`. */
  function Join(sep: string, parts: seq<string>): string
  {
    if |parts| == 0 then ""
    else if |parts| == 1 then parts[0]
    else parts[0] + sep + Join(sep, parts[1..])
  }

  /** Where the k-th field starts in a join of fields of width `w`. */
  function FieldStart(k: nat, w: nat, sep: string): nat
  {
    k * (w + |sep|)
  }

  lemma FieldStartStep(k: nat, w: nat, sep: string)
    requires k >= 1
    ensures FieldStart(k, w, sep) == FieldStart(k - 1, w, sep) + w + |sep|
  {
  }

  predicate UniformWidth(parts: seq<string>, w: nat) {
    forall k :: 0 <= k < |parts| ==> |parts[k]| == w
  }

  /** A join of n fields of width w is n fields and n - 1 separators long. */
  lemma {:induction false} JoinLength(sep: string, parts: seq<string>, w: nat)
    requires |parts| > 0 && UniformWidth(parts, w)
    ensures |Join(sep, parts)| + |sep| == FieldStart(|parts|, w, sep)
  {
    FieldStartStep(|parts|, w, sep);
    if |parts| > 1 {
      JoinLength(sep, parts[1..], w);
    }
  }

  /** Character j of field k sits at `FieldStart(k) + j` in the join. */
  lemma {:induction false} JoinField(sep: string, parts: seq<string>, w: nat, k: nat, j: nat)
    requires UniformWidth(parts, w)
    requires k < |parts| && j < w
    ensures FieldStart(k, w, sep) + j < |Join(sep, parts)|
    ensures Join(sep, parts)[FieldStart(k, w, sep) + j] == parts[k][j]
  {
    if |parts| > 1 {
      var rest := parts[1..];
      var tail := Join(sep, rest);
      assert Join(sep, parts) == parts[0] + sep + tail;
      if k > 0 {
        FieldStartStep(k, w, sep);
        JoinField(sep, rest, w, k - 1, j);
        assert rest[k - 1] == parts[k];
      }
    }
  }

  /** Character j of the separator after field k sits at
      `FieldStart(k) + w + j` in the join. */
  lemma {:induction false} JoinSeparator(sep: string, parts: seq<string>, w: nat, k: nat, j: nat)
    requires UniformWidth(parts, w)
    requires k + 1 < |parts| && j < |sep|
    ensures FieldStart(k, w, sep) + w + j < |Join(sep, parts)|
    ensures Join(sep, parts)[FieldStart(k, w, sep) + w + j] == sep[j]
  {
    var rest := parts[1..];
    var tail := Join(sep, rest);
    assert Join(sep, parts) == parts[0] + sep + tail;
    if k > 0 {
      FieldStartStep(k, w, sep);
      JoinSeparator(sep, rest, w, k - 1, j);
    }
  }

  /** `bytes_to_hexstr(b, start, sep)`: `start`, then each byte as two
      upper-case hex digits, with `sep` between neighbouring bytes. */
  function BytesToHexstr(b: seq<Byte>, start: string, sep: string): (r: string)
    ensures |r| >= |start| && r[..|start|] == start
    ensures |b| == 0 ==> r == start
    ensures |b| > 0 ==> |r| - |start| + |sep| == FieldStart(|b|, 2, sep)
    ensures forall k :: 0 <= k < |b| ==>
      var text, at := r[|start|..], FieldStart(k, 2, sep);
      && at + 1 < |text|
      && IsUpperHexDigit(text[at]) && IsUpperHexDigit(text[at + 1])
      && HexValue(text[at]) * 16 + HexValue(text[at + 1]) == b[k]
    ensures forall k: nat :: k + 1 < |b| ==> SeparatorAfter(r[|start|..], k, sep)
  {
    var text := Join(sep, HexParts(b));
    HexLength(b, sep);
    HexFields(b, sep);
    HexSeparators(b, sep);
    assert (start + text)[|start|..] == text;
    start + text
  }

  /** Where the digits of each byte lie in the joined text. */
  lemma HexFields(b: seq<Byte>, sep: string)
    ensures forall k :: 0 <= k < |b| ==>
      var text, at := Join(sep, HexParts(b)), FieldStart(k, 2, sep);
      && at + 1 < |text|
      && IsUpperHexDigit(text[at]) && IsUpperHexDigit(text[at + 1])
      && HexValue(text[at]) * 16 + HexValue(text[at + 1]) == b[k]
  {
    var parts := HexParts(b);
    forall k | 0 <= k < |b|
      ensures var text, at := Join(sep, parts), FieldStart(k, 2, sep);
        && at + 1 < |text|
        && IsUpperHexDigit(text[at]) && IsUpperHexDigit(text[at + 1])
        && HexValue(text[at]) * 16 + HexValue(text[at + 1]) == b[k]
    {
      HexField(b, sep, k);
    }
  }

  /** The length of the joined text: two digits per byte and a separator
      between neighbours. */
  lemma HexLength(b: seq<Byte>, sep: string)
    ensures |b| == 0 ==> Join(sep, HexParts(b)) == ""
    ensures |b| > 0 ==> |Join(sep, HexParts(b))| + |sep| == FieldStart(|b|, 2, sep)
  {
    if |b| > 0 {
      JoinLength(sep, HexParts(b), 2);
    }
  }

  /** The two digits of byte k in the joined text. */
  lemma HexField(b: seq<Byte>, sep: string, k: nat)
    requires k < |b|
    ensures var text, at := Join(sep, HexParts(b)), FieldStart(k, 2, sep);
      && at + 1 < |text|
      && IsUpperHexDigit(text[at]) && IsUpperHexDigit(text[at + 1])
      && HexValue(text[at]) * 16 + HexValue(text[at + 1]) == b[k]
  {
    var parts := HexParts(b);
    var h := ByteToHex(b[k]);
    assert parts[k] == h;
    JoinField(sep, parts, 2, k, 0);
    JoinField(sep, parts, 2, k, 1);
    var text, at := Join(sep, parts), FieldStart(k, 2, sep);
    assert text[at] == h[0] && text[at + 1] == h[1];
  }

  /** The separator after byte k of a rendering sits right after that
      byte's two digits. */
  predicate SeparatorAfter(text: string, k: nat, sep: string) {
    var at := FieldStart(k, 2, sep) + 2;
    at + |sep| <= |text| && text[at .. at + |sep|] == sep
  }

  /** Where the separator after each byte but the last lies in the joined
      text. */
  lemma HexSeparators(b: seq<Byte>, sep: string)
    ensures forall k: nat :: k + 1 < |b| ==> SeparatorAfter(Join(sep, HexParts(b)), k, sep)
  {
    forall k: nat | k + 1 < |b|
      ensures SeparatorAfter(Join(sep, HexParts(b)), k, sep)
    {
      var text := Join(sep, HexParts(b));
      var at := FieldStart(k, 2, sep) + 2;
      JoinField(sep, HexParts(b), 2, k, 1);
      if |sep| > 0 {
        JoinSeparator(sep, HexParts(b), 2, k, |sep| - 1);
      }
      assert at + |sep| <= |text|;
      forall j | 0 <= j < |sep|
        ensures text[at .. at + |sep|][j] == sep[j]
      {
        JoinSeparator(sep, HexParts(b), 2, k, j);
      }
      assert text[at .. at + |sep|] == sep;
    }
  }

  lemma {:induction false} FieldStartMonotonic(k: nat, n: nat, w: nat, sep: string)
    requires k < n
    ensures FieldStart(k, w, sep) + w + |sep| <= FieldStart(n, w, sep)
  {
    FieldStartStep(n, w, sep);
    if k < n - 1 {
      FieldStartMonotonic(k, n - 1, w, sep);
    }
  }

  /** `filter(str.isalnum, s)`: the letters and digits of `s`, in order. */
  function KeepAlnum(s: string): (r: string)
    ensures |r| <= |s|
    ensures forall i :: 0 <= i < |r| ==> IsAlnum(r[i])
    ensures (forall i :: 0 <= i < |s| ==> IsAlnum(s[i])) ==> r == s
    ensures NoAlnum(s) ==> r == ""
  {
    if |s| == 0 then []
    else
      assert s == [s[0]] + s[1..];
      (if IsAlnum(s[0]) then [s[0]] else []) + KeepAlnum(s[1..])
  }

  /** Every letter or digit of `s` survives the filter. */
  lemma {:induction false} KeepAlnumKeeps(s: string, i: nat)
    requires i < |s| && IsAlnum(s[i])
    ensures s[i] in KeepAlnum(s)
  {
    if i > 0 {
      KeepAlnumKeeps(s[1..], i - 1);
    }
  }

  /** Everything the filter keeps comes from `s`. */
  lemma {:induction false} KeepAlnumFrom(s: string, i: nat)
    requires i < |KeepAlnum(s)|
    ensures KeepAlnum(s)[i] in s
  {
    if !IsAlnum(s[0]) {
      KeepAlnumFrom(s[1..], i);
    } else if i > 0 {
      KeepAlnumFrom(s[1..], i - 1);
    }
  }

  /** Filtering distributes over concatenation. */
  lemma {:induction false} KeepAlnumConcat(a: string, c: string)
    ensures KeepAlnum(a + c) == KeepAlnum(a) + KeepAlnum(c)
  {
    if |a| == 0 {
      assert a + c == c;
    } else {
      assert (a + c)[0] == a[0];
      assert (a + c)[1..] == a[1..] + c;
      KeepAlnumConcat(a[1..], c);
    }
  }

  /** `bytes.fromhex(d)` on a string of letters and digits: pairs of hex
      digits, each pair one byte, high digit first. An odd count or a
      character that is not a hex digit raises ValueError. */
  function FromHex(d: string): (r: Result<seq<Byte>>)
    ensures r.Ok? <==> |d| % 2 == 0 && forall i :: 0 <= i < |d| ==> IsHexDigit(d[i])
    ensures r.Fail? ==> r.error == ValueError
    ensures r.Ok? ==> |r.value| * 2 == |d|
    ensures r.Ok? ==> forall i :: 0 <= i < |r.value| ==>
      r.value[i] == HexValue(d[2 * i]) * 16 + HexValue(d[2 * i + 1])
  {
    if |d| == 0 then Ok([])
    else if |d| == 1 || !IsHexDigit(d[0]) || !IsHexDigit(d[1]) then Fail(ValueError)
    else
      var rest := FromHex(d[2..]);
      if rest.Fail? then rest
      else
        var x := HexValue(d[0]) * 16 + HexValue(d[1]);
        var r := [x] + rest.value;
        assert forall i :: 1 <= i < |r| ==> d[2 * i] == d[2..][2 * (i - 1)];
        Ok(r)
  }

  /** One step of `FromHex`: a leading pair of hex digits becomes the first
      byte. */
  lemma FromHexPair(h: string, rest: string)
    requires |h| == 2 && IsHexDigit(h[0]) && IsHexDigit(h[1])
    requires FromHex(rest).Ok?
    ensures FromHex(h + rest) == Ok([HexValue(h[0]) * 16 + HexValue(h[1])] + FromHex(rest).value)
  {
    var d := h + rest;
    assert d[0] == h[0] && d[1] == h[1];
    assert d[2..] == rest;
  }

  /** `hexstr_to_bytes(s)`. It succeeds exactly when every letter or digit
      in `s` is a hex digit and there is an even number of them. */
  function HexstrToBytes(s: string): (r: Result<seq<Byte>>)
    ensures r.Ok? <==>
      |KeepAlnum(s)| % 2 == 0 && forall i :: 0 <= i < |s| && IsAlnum(s[i]) ==> IsHexDigit(s[i])
    ensures r.Fail? ==> r.error == ValueError
    ensures r.Ok? ==> |r.value| * 2 == |KeepAlnum(s)|
    ensures r.Ok? ==> forall i :: 0 <= i < |KeepAlnum(s)| ==> IsHexDigit(KeepAlnum(s)[i])
    ensures r.Ok? ==> forall i :: 0 <= i < |r.value| ==>
      r.value[i] == HexValue(KeepAlnum(s)[2 * i]) * 16 + HexValue(KeepAlnum(s)[2 * i + 1])
  {
    var digits := KeepAlnum(s);
    assert (forall i :: 0 <= i < |digits| ==> IsHexDigit(digits[i])) <==>
      (forall i :: 0 <= i < |s| && IsAlnum(s[i]) ==> IsHexDigit(s[i])) by {
      if forall i :: 0 <= i < |digits| ==> IsHexDigit(digits[i]) {
        forall i | 0 <= i < |s| && IsAlnum(s[i]) ensures IsHexDigit(s[i]) {
          KeepAlnumKeeps(s, i);
          var m :| 0 <= m < |digits| && digits[m] == s[i];
        }
      }
      if forall i :: 0 <= i < |s| && IsAlnum(s[i]) ==> IsHexDigit(s[i]) {
        forall i | 0 <= i < |digits| ensures IsHexDigit(digits[i]) {
          KeepAlnumFrom(s, i);
          var m :| 0 <= m < |s| && s[m] == digits[i];
        }
      }
    }
    FromHex(digits)
  }

  /** The concatenated digits `bytes_to_hexstr` writes, without separators. */
  function Hexes(b: seq<Byte>): string
  {
    if |b| == 0 then "" else ByteToHex(b[0]) + Hexes(b[1..])
  }

  lemma {:induction false} FromHexOfHexes(b: seq<Byte>)
    ensures FromHex(Hexes(b)) == Ok(b)
  {
    if |b| > 0 {
      FromHexOfHexes(b[1..]);
      FromHexPair(ByteToHex(b[0]), Hexes(b[1..]));
      assert [b[0]] + b[1..] == b;
    }
  }

  /** With a separator free of letters and digits, filtering a join of the
      hex fields leaves just the digits. */
  lemma {:induction false} KeepAlnumOfJoin(b: seq<Byte>, sep: string)
    requires NoAlnum(sep)
    ensures KeepAlnum(Join(sep, HexParts(b))) == Hexes(b)
  {
    if |b| > 0 {
      var h := ByteToHex(b[0]);
      assert KeepAlnum(h) == h by {
        assert h[1..][1..] == [];
      }
      if |b| == 1 {
        assert Hexes(b[1..]) == "";
      } else {
        var tail := Join(sep, HexParts(b[1..]));
        KeepAlnumOfJoin(b[1..], sep);
        assert HexParts(b)[1..] == HexParts(b[1..]);
        assert Join(sep, HexParts(b)) == h + sep + tail;
        KeepAlnumConcat(h + sep, tail);
        KeepAlnumConcat(h, sep);
        assert Hexes(b) == h + Hexes(b[1..]);
      }
    }
  }

  /** Rendering and then parsing gives back the bytes, whenever neither the
      prefix nor the separator contains a letter or a digit. */
  lemma HexRoundTrip(b: seq<Byte>, start: string, sep: string)
    requires NoAlnum(start) && NoAlnum(sep)
    ensures HexstrToBytes(BytesToHexstr(b, start, sep)) == Ok(b)
  {
    var text := Join(sep, HexParts(b));
    assert BytesToHexstr(b, start, sep) == start + text;
    KeepAlnumConcat(start, text);
    KeepAlnumOfJoin(b, sep);
    assert KeepAlnum(start + text) == Hexes(b);
    FromHexOfHexes(b);
  }

  /** Joining with the empty separator concatenates the fields. */
  lemma {:induction false} JoinWithoutSeparator(b: seq<Byte>)
    ensures Join("", HexParts(b)) == Hexes(b)
  {
    if |b| > 1 {
      JoinWithoutSeparator(b[1..]);
      assert HexParts(b)[1..] == HexParts(b[1..]);
    } else if |b| == 1 {
      assert Hexes(b[1..]) == "";
    }
  }

  /** Writing a byte back gives the upper-case pair it was read from. */
  lemma HexDigitOfValue(c: char)
    requires IsUpperHexDigit(c)
    ensures HexDigit(HexValue(c)) == c
  {
  }

  /** Parsing an even run of upper-case hex digits and writing the bytes
      back gives the same digits. */
  lemma {:induction false} HexesOfFromHex(d: string)
    requires |d| % 2 == 0
    requires forall i :: 0 <= i < |d| ==> IsUpperHexDigit(d[i])
    ensures FromHex(d).Ok?
    ensures Hexes(FromHex(d).value) == d
  {
    if |d| > 0 {
      var rest := d[2..];
      HexesOfFromHex(rest);
      assert d == d[..2] + rest;
      FromHexPair(d[..2], rest);
      var b := FromHex(d).value;
      assert b == [HexValue(d[0]) * 16 + HexValue(d[1])] + FromHex(rest).value;
      assert b[1..] == FromHex(rest).value;
      PairRoundTrip(d[0], d[1]);
      assert ByteToHex(b[0]) == d[..2];
    }
  }

  /** Reading two upper-case hex digits as a byte and writing it back gives
      the same two digits. */
  lemma PairRoundTrip(hi: char, lo: char)
    requires IsUpperHexDigit(hi) && IsUpperHexDigit(lo)
    ensures ByteToHex(HexValue(hi) * 16 + HexValue(lo)) == [hi, lo]
  {
    HexDigitOfValue(hi);
    HexDigitOfValue(lo);
    CombineSplit(HexValue(hi), HexValue(lo));
  }

  /** Parsing canonical text, an even run of upper-case hex digits, and
      rendering the bytes without prefix or separator gives the text back. */
  lemma ParseThenRender(d: string)
    requires |d| % 2 == 0
    requires forall i :: 0 <= i < |d| ==> IsUpperHexDigit(d[i])
    ensures HexstrToBytes(d).Ok?
    ensures BytesToHexstr(HexstrToBytes(d).value, "", "") == d
  {
    HexesOfFromHex(d);
    var b := FromHex(d).value;
    JoinWithoutSeparator(b);
    assert BytesToHexstr(b, "", "") == "" + Join("", HexParts(b));
  }

  /** Splitting a byte into its two hex digits undoes combining them. */
  lemma CombineSplit(hi: nat, lo: nat)
    requires hi < 16 && lo < 16
    ensures (hi * 16 + lo) / 16 == hi && (hi * 16 + lo) % 16 == lo
  {
  }

  lemma ByteToHexExamples()
    ensures ByteToHex(0xAB) == "AB"
    ensures ByteToHex(0xCD) == "CD"
    ensures ByteToHex(0xEF) == "EF"
  {
    CombineSplit(10, 11);
    CombineSplit(12, 13);
    CombineSplit(14, 15);
  }

  /** Removing a run of non-alphanumeric characters anywhere in the text
      leaves the parse unchanged: separators of any kind are dropped. */
  lemma HexstrIgnoresSeparators(a: string, x: string, c: string)
    requires NoAlnum(x)
    ensures HexstrToBytes(a + x + c) == HexstrToBytes(a + c)
  {
    KeepAlnumConcat(a + x, c);
    KeepAlnumConcat(a, x);
    KeepAlnumConcat(a, c);
    assert KeepAlnum(a) + "" == KeepAlnum(a);
  }

  /** An example, written with the default single-space separator. */
  lemma HexRenderExample()
    ensures BytesToHexstr([0xAB, 0xCD, 0xEF], "", " ") == "AB CD EF"
  {
    var b: seq<Byte> := [0xAB, 0xCD, 0xEF];
    ByteToHexExamples();
    assert HexParts(b) == ["AB", "CD", "EF"] by {
      assert HexParts(b[2..]) == ["EF"] + HexParts(b[3..]);
      assert HexParts(b[1..]) == ["CD"] + HexParts(b[2..]);
    }
    assert Join(" ", ["AB", "CD", "EF"]) == "AB CD EF" by {
      assert ["AB", "CD", "EF"][1..] == ["CD", "EF"];
      assert ["CD", "EF"][1..] == ["EF"];
    }
  }

  /** An example, read back; by `HexstrIgnoresSeparators`, any other
      non-alphanumeric separators in place of the spaces read the same. */
  lemma HexParseExample()
    ensures HexstrToBytes("AB CD EF") == Ok([0xAB, 0xCD, 0xEF])
  {
    HexRenderExample();
    HexRoundTrip([0xAB, 0xCD, 0xEF], "", " ");
  }
}
