/** Padded URL-safe base64 (section 5 of RFC 4648), as Go's
    `base64.URLEncoding` encodes and decodes it.

    Like the library, the model works in two layers: characters are mapped to
    and from 6-bit values through the alphabet table, and the grouping into
    quanta is arithmetic on those values. The padding character `=` is given
    the value 64 so that both layers can treat it uniformly.

    The decoder is the library's default, non-strict one: it ignores the
    unused low bits of a padded final quantum, so `QR==` and `QQ==` both
    decode to the single byte `A`. */
module Base64Url {
  import opened GoTypes
  import opened Wrappers

  /** The padding character `=`, and the value that stands for it. */
  const Pad: byte := 61
  const PadValue: int := 64

  // ---------------------------------------------------------------- alphabet

  /** The 64 symbols `A`-`Z`, `a`-`z`, `0`-`9`, `-`, `_`. */
  predicate IsSymbol(c: byte) {
    || 65 <= c <= 90
    || 97 <= c <= 122
    || 48 <= c <= 57
    || c == 45
    || c == 95
  }

  /** A character that may appear in an encoding: a symbol or `=`. */
  predicate InAlphabet(c: byte) {
    IsSymbol(c) || c == Pad
  }

  /** The character for the value `v`: a symbol for 0..63, `=` for 64. */
  function CharOf(v: int): (c: byte)
    requires 0 <= v <= PadValue
    ensures InAlphabet(c)
    ensures c == Pad <==> v == PadValue
  {
    if v < 26 then 65 + v
    else if v < 52 then 97 + (v - 26)
    else if v < 62 then 48 + (v - 52)
    else if v == 62 then 45
    else if v == 63 then 95
    else Pad
  }

  /** The value of a character: the inverse of `CharOf`. */
  function ValueOf(c: byte): (v: int)
    requires InAlphabet(c)
    ensures 0 <= v <= PadValue && CharOf(v) == c
  {
    if 65 <= c <= 90 then c - 65
    else if 97 <= c <= 122 then c - 97 + 26
    else if 48 <= c <= 57 then c - 48 + 52
    else if c == 45 then 62
    else if c == 95 then 63
    else PadValue
  }

  lemma ValueOfCharOf(v: int)
    requires 0 <= v <= PadValue
    ensures ValueOf(CharOf(v)) == v
  {
  }

  predicate AllInAlphabet(s: seq<byte>) {
    forall i :: 0 <= i < |s| ==> InAlphabet(s[i])
  }

  predicate AreValues(v: seq<int>) {
    forall i :: 0 <= i < |v| ==> 0 <= v[i] <= PadValue
  }

  /** A sequence of values, as characters. */
  function CharsOf(v: seq<int>): (s: seq<byte>)
    requires AreValues(v)
    ensures |s| == |v| && AllInAlphabet(s)
  {
    seq(|v|, i requires 0 <= i < |v| => CharOf(v[i]))
  }

  /** A sequence of characters, as values. */
  function ValuesOf(s: seq<byte>): (v: seq<int>)
    requires AllInAlphabet(s)
    ensures |v| == |s| && AreValues(v)
  {
    seq(|s|, i requires 0 <= i < |s| => ValueOf(s[i]))
  }

  lemma ValuesOfCharsOf(v: seq<int>)
    requires AreValues(v)
    ensures ValuesOf(CharsOf(v)) == v
  {
    forall i | 0 <= i < |v| {
      ValueOfCharOf(v[i]);
    }
  }

  lemma CharsOfValuesOf(s: seq<byte>)
    requires AllInAlphabet(s)
    ensures CharsOf(ValuesOf(s)) == s
  {
  }

  // ---------------------------------------------------------------- values

  /** A final single byte: two values and two paddings. */
  function EncodeOneValues(a: byte): seq<int> {
    [a / 4, a % 4 * 16, PadValue, PadValue]
  }

  /** A final pair of bytes: three values and one padding. */
  function EncodeTwoValues(a: byte, b: byte): seq<int> {
    [a / 4, a % 4 * 16 + b / 16, b % 16 * 4, PadValue]
  }

  /** Three bytes: four values. */
  function EncodeQuantumValues(a: byte, b: byte, c: byte): seq<int> {
    [a / 4, a % 4 * 16 + b / 16, b % 16 * 4 + c / 64, c % 64]
  }

  /** The values of the encoding: four for every started group of three
      bytes, a short final group being padded. */
  function EncodeValues(b: seq<byte>): (v: seq<int>)
    ensures AreValues(v)
    ensures |v| == 0 <==> |b| == 0
    decreases |b|
  {
    if |b| == 0 then []
    else if |b| == 1 then EncodeOneValues(b[0])
    else if |b| == 2 then EncodeTwoValues(b[0], b[1])
    else
      var rest := EncodeValues(b[3..]);
      var v := EncodeQuantumValues(b[0], b[1], b[2]) + rest;
      assert forall i :: 4 <= i < |v| ==> v[i] == rest[i - 4];
      v
  }

  /** Four values of a quantum with no padding, as three bytes. */
  function DecodeQuantum(v0: int, v1: int, v2: int, v3: int): (r: Option<seq<byte>>)
    requires 0 <= v0 <= PadValue && 0 <= v1 <= PadValue && 0 <= v2 <= PadValue && 0 <= v3 <= PadValue
    ensures r.Some? ==> |r.value| == 3
  {
    if v0 < PadValue && v1 < PadValue && v2 < PadValue && v3 < PadValue then
      Some([v0 * 4 + v1 / 16, v1 % 16 * 16 + v2 / 4, v2 % 4 * 64 + v3])
    else None
  }

  /** The last quantum, which may end in `=` or `==`; the low bits of the
      last value before the padding are dropped whatever they are. */
  function DecodeFinalQuantum(v0: int, v1: int, v2: int, v3: int): (r: Option<seq<byte>>)
    requires 0 <= v0 <= PadValue && 0 <= v1 <= PadValue && 0 <= v2 <= PadValue && 0 <= v3 <= PadValue
    ensures r.Some? ==> 1 <= |r.value| <= 3
  {
    if v0 < PadValue && v1 < PadValue && v2 == PadValue && v3 == PadValue then
      Some([v0 * 4 + v1 / 16])
    else if v0 < PadValue && v1 < PadValue && v2 < PadValue && v3 == PadValue then
      Some([v0 * 4 + v1 / 16, v1 % 16 * 16 + v2 / 4])
    else DecodeQuantum(v0, v1, v2, v3)
  }

  /** Whole quanta of four; padding only in the last one. */
  function DecodeValues(v: seq<int>): (r: Option<seq<byte>>)
    requires AreValues(v)
    ensures r.Some? ==> (|r.value| == 0 <==> |v| == 0)
    decreases |v|
  {
    if |v| == 0 then Some([])
    else if |v| < 4 then None
    else if |v| == 4 then DecodeFinalQuantum(v[0], v[1], v[2], v[3])
    else
      var head :- DecodeQuantum(v[0], v[1], v[2], v[3]);
      var tail :- DecodeValues(v[4..]);
      Some(head + tail)
  }

  /** The bits the decoder drops from a padded final quantum are all zero. */
  predicate ZeroPadValues(v: seq<int>) {
    |v| < 4 ||
    var n := |v|;
    if v[n - 2] == PadValue && v[n - 1] == PadValue then v[n - 3] % 16 == 0
    else if v[n - 1] == PadValue then v[n - 2] % 4 == 0
    else true
  }

  // ---------------------------------------------------------------- strings

  /** `base64.URLEncoding.EncodeToString`. */
  function Encode(b: seq<byte>): seq<byte>
  {
    CharsOf(EncodeValues(b))
  }

  /** `base64.URLEncoding.DecodeString`: every character must be a symbol
      or `=`, the input whole quanta of four, and padding may appear only at
      the very end. */
  function Decode(s: seq<byte>): Option<seq<byte>>
  {
    if AllInAlphabet(s) then DecodeValues(ValuesOf(s)) else None
  }

  /** The bits the decoder drops from a padded final quantum of `s` are all
      zero, which is what Go's `Strict` decoding mode would insist on. */
  predicate ZeroPadBits(s: seq<byte>) {
    AllInAlphabet(s) && ZeroPadValues(ValuesOf(s))
  }

  // ---------------------------------------------------------------- properties

  /** Splitting three bytes into four sextets and joining them back. */
  lemma QuantumArithmetic(a: byte, b: byte, c: byte)
    ensures var v0, v1, v2, v3 := a / 4, a % 4 * 16 + b / 16, b % 16 * 4 + c / 64, c % 64;
            && v0 * 4 + v1 / 16 == a
            && v1 % 16 * 16 + v2 / 4 == b
            && v2 % 4 * 64 + v3 == c
  {
  }

  /** Joining four sextets into three bytes and splitting them again. */
  lemma SextetArithmetic(v0: int, v1: int, v2: int, v3: int)
    requires 0 <= v0 < 64 && 0 <= v1 < 64 && 0 <= v2 < 64 && 0 <= v3 < 64
    ensures var a, b, c := v0 * 4 + v1 / 16, v1 % 16 * 16 + v2 / 4, v2 % 4 * 64 + v3;
            && a / 4 == v0 && a % 4 * 16 + b / 16 == v1
            && b % 16 * 4 + c / 64 == v2 && c % 64 == v3
            && (a % 4 * 16 == v1 <==> v1 % 16 == 0)
            && (b % 16 * 4 == v2 <==> v2 % 4 == 0)
  {
  }

  lemma DecodeValuesUnfold(v: seq<int>)
    requires AreValues(v) && |v| > 4
    ensures DecodeValues(v) == match DecodeQuantum(v[0], v[1], v[2], v[3])
      case None => None
      case Some(head) => match DecodeValues(v[4..])
        case None => None
        case Some(tail) => Some(head + tail)
  {
  }

  lemma DecodeOne(a: byte)
    ensures DecodeValues(EncodeOneValues(a)) == Some([a])
  {
    QuantumArithmetic(a, 0, 0);
    var v0, v1 := a / 4, a % 4 * 16;
    assert 0 <= v0 < 64 && 0 <= v1 < 64;
    var v := [v0, v1, PadValue, PadValue];
    assert EncodeOneValues(a) == v;
    assert DecodeFinalQuantum(v0, v1, PadValue, PadValue) == Some([a]);
    assert DecodeValues(v) == DecodeFinalQuantum(v[0], v[1], v[2], v[3]);
  }

  lemma DecodeTwo(a: byte, b: byte)
    ensures DecodeValues(EncodeTwoValues(a, b)) == Some([a, b])
  {
    QuantumArithmetic(a, b, 0);
    var v0, v1, v2 := a / 4, a % 4 * 16 + b / 16, b % 16 * 4;
    assert 0 <= v0 < 64 && 0 <= v1 < 64 && 0 <= v2 < 64;
    var v := [v0, v1, v2, PadValue];
    assert EncodeTwoValues(a, b) == v;
    assert DecodeFinalQuantum(v0, v1, v2, PadValue) == Some([a, b]);
    assert DecodeValues(v) == DecodeFinalQuantum(v[0], v[1], v[2], v[3]);
  }

  lemma DecodeThree(a: byte, b: byte, c: byte)
    ensures DecodeQuantum(a / 4, a % 4 * 16 + b / 16, b % 16 * 4 + c / 64, c % 64) == Some([a, b, c])
    ensures DecodeValues(EncodeQuantumValues(a, b, c)) == Some([a, b, c])
  {
    QuantumArithmetic(a, b, c);
    var v0, v1, v2, v3 := a / 4, a % 4 * 16 + b / 16, b % 16 * 4 + c / 64, c % 64;
    assert 0 <= v0 < 64 && 0 <= v1 < 64 && 0 <= v2 < 64 && 0 <= v3 < 64;
    var v := [v0, v1, v2, v3];
    assert EncodeQuantumValues(a, b, c) == v;
    assert DecodeQuantum(v0, v1, v2, v3) == Some([a, b, c]);
    assert DecodeFinalQuantum(v0, v1, v2, v3) == Some([a, b, c]);
    assert DecodeValues(v) == DecodeFinalQuantum(v[0], v[1], v[2], v[3]);
  }

  lemma EncodeValuesUnfold(b: seq<byte>)
    requires |b| >= 3
    ensures EncodeValues(b) == EncodeQuantumValues(b[0], b[1], b[2]) + EncodeValues(b[3..])
  {
  }

  /** Round trip on values. */
  lemma {:induction false} DecodeOfEncodeValues(b: seq<byte>)
    ensures DecodeValues(EncodeValues(b)) == Some(b)
    decreases |b|
  {
    if |b| == 1 {
      DecodeOne(b[0]);
      assert [b[0]] == b;
    } else if |b| == 2 {
      DecodeTwo(b[0], b[1]);
      assert [b[0], b[1]] == b;
    } else if |b| == 3 {
      EncodeValuesUnfold(b);
      assert EncodeValues(b[3..]) == [];
      assert EncodeValues(b) == EncodeQuantumValues(b[0], b[1], b[2]);
      DecodeThree(b[0], b[1], b[2]);
      assert [b[0], b[1], b[2]] == b;
    } else if |b| > 3 {
      var q, rest := EncodeQuantumValues(b[0], b[1], b[2]), EncodeValues(b[3..]);
      EncodeValuesUnfold(b);
      DecodeOfEncodeValues(b[3..]);
      DecodeThree(b[0], b[1], b[2]);
      var v := q + rest;
      assert v[4..] == rest;
      assert v[0] == q[0] && v[1] == q[1] && v[2] == q[2] && v[3] == q[3];
      DecodeValuesUnfold(v);
      assert [b[0], b[1], b[2]] + b[3..] == b;
    }
  }

  /** Round trip: decoding an encoding gives the original bytes back. */
  lemma DecodeOfEncode(b: seq<byte>)
    ensures Decode(Encode(b)) == Some(b)
  {
    ValuesOfCharsOf(EncodeValues(b));
    DecodeOfEncodeValues(b);
  }

  lemma EncodeOfDecodeOne(v0: int, v1: int)
    requires 0 <= v0 < 64 && 0 <= v1 < 64
    ensures EncodeOneValues(v0 * 4 + v1 / 16) == [v0, v1, PadValue, PadValue] <==> v1 % 16 == 0
  {
    SextetArithmetic(v0, v1, 0, 0);
  }

  lemma EncodeOfDecodeTwo(v0: int, v1: int, v2: int)
    requires 0 <= v0 < 64 && 0 <= v1 < 64 && 0 <= v2 < 64
    ensures EncodeTwoValues(v0 * 4 + v1 / 16, v1 % 16 * 16 + v2 / 4) == [v0, v1, v2, PadValue]
            <==> v2 % 4 == 0
  {
    SextetArithmetic(v0, v1, v2, 0);
  }

  lemma EncodeOfDecodeThree(v0: int, v1: int, v2: int, v3: int)
    requires 0 <= v0 < 64 && 0 <= v1 < 64 && 0 <= v2 < 64 && 0 <= v3 < 64
    ensures EncodeQuantumValues(v0 * 4 + v1 / 16, v1 % 16 * 16 + v2 / 4, v2 % 4 * 64 + v3)
            == [v0, v1, v2, v3]
  {
    SextetArithmetic(v0, v1, v2, v3);
  }

  lemma EncodeOfDecodeFinalOne(v: seq<int>, b: seq<byte>)
    requires |v| == 4 && 0 <= v[0] < 64 && 0 <= v[1] < 64 && v[2] == PadValue && v[3] == PadValue
    requires DecodeFinalQuantum(v[0], v[1], v[2], v[3]) == Some(b)
    ensures EncodeValues(b) == v <==> ZeroPadValues(v)
  {
    var v0, v1 := v[0], v[1];
    assert b == [v0 * 4 + v1 / 16];
    assert EncodeValues(b) == EncodeOneValues(b[0]);
    assert v == [v0, v1, PadValue, PadValue];
    assert ZeroPadValues(v) == (v1 % 16 == 0);
    EncodeOfDecodeOne(v0, v1);
  }

  lemma EncodeOfDecodeFinalTwo(v: seq<int>, b: seq<byte>)
    requires |v| == 4 && 0 <= v[0] < 64 && 0 <= v[1] < 64 && 0 <= v[2] < 64 && v[3] == PadValue
    requires DecodeFinalQuantum(v[0], v[1], v[2], v[3]) == Some(b)
    ensures EncodeValues(b) == v <==> ZeroPadValues(v)
  {
    var v0, v1, v2 := v[0], v[1], v[2];
    assert b == [v0 * 4 + v1 / 16, v1 % 16 * 16 + v2 / 4];
    assert EncodeValues(b) == EncodeTwoValues(b[0], b[1]);
    assert v == [v0, v1, v2, PadValue];
    assert ZeroPadValues(v) == (v2 % 4 == 0);
    EncodeOfDecodeTwo(v0, v1, v2);
  }

  lemma EncodeOfDecodeFinalThree(v: seq<int>, b: seq<byte>)
    requires |v| == 4 && 0 <= v[0] < 64 && 0 <= v[1] < 64 && 0 <= v[2] < 64 && 0 <= v[3] < 64
    requires DecodeFinalQuantum(v[0], v[1], v[2], v[3]) == Some(b)
    ensures EncodeValues(b) == v <==> ZeroPadValues(v)
  {
    var v0, v1, v2, v3 := v[0], v[1], v[2], v[3];
    assert b == [v0 * 4 + v1 / 16, v1 % 16 * 16 + v2 / 4, v2 % 4 * 64 + v3];
    EncodeValuesUnfold(b);
    assert EncodeValues(b[3..]) == [];
    assert EncodeValues(b) == EncodeQuantumValues(b[0], b[1], b[2]);
    assert v == [v0, v1, v2, v3];
    assert ZeroPadValues(v);
    EncodeOfDecodeThree(v0, v1, v2, v3);
  }

  /** Canonicality of the final quantum, on values. */
  lemma EncodeOfDecodeFinal(v: seq<int>, b: seq<byte>)
    requires AreValues(v) && |v| == 4 && DecodeValues(v) == Some(b)
    ensures EncodeValues(b) == v <==> ZeroPadValues(v)
  {
    assert DecodeValues(v) == DecodeFinalQuantum(v[0], v[1], v[2], v[3]);
    if v[2] == PadValue && v[3] == PadValue {
      EncodeOfDecodeFinalOne(v, b);
    } else if v[3] == PadValue {
      EncodeOfDecodeFinalTwo(v, b);
    } else {
      EncodeOfDecodeFinalThree(v, b);
    }
  }

  lemma EncodeOfDecodeStep(v: seq<int>, b: seq<byte>, head: seq<byte>, tail: seq<byte>)
    requires AreValues(v) && |v| > 4 && |head| == 3 && |tail| > 0 && b == head + tail
    requires EncodeQuantumValues(head[0], head[1], head[2]) == v[..4]
    ensures EncodeValues(b) == v <==> EncodeValues(tail) == v[4..]
  {
    var q := v[..4];
    EncodeValuesUnfold(b);
    assert b[0] == head[0] && b[1] == head[1] && b[2] == head[2] && b[3..] == tail;
    assert v == q + v[4..];
    assert (q + EncodeValues(tail))[4..] == EncodeValues(tail);
  }

  /** Only the final quantum decides `ZeroPadValues`. */
  lemma ZeroPadValuesOfRest(v: seq<int>)
    requires |v| >= 8
    ensures ZeroPadValues(v) == ZeroPadValues(v[4..])
  {
    var r := v[4..];
    assert v[|v| - 3] == r[|r| - 3] && v[|v| - 2] == r[|r| - 2] && v[|v| - 1] == r[|r| - 1];
  }

  /** Canonicality on values: re-encoding gives the input back exactly when
      the dropped bits are zero. */
  lemma {:induction false} EncodeOfDecodeValues(v: seq<int>, b: seq<byte>)
    requires AreValues(v) && DecodeValues(v) == Some(b)
    ensures EncodeValues(b) == v <==> ZeroPadValues(v)
    decreases |v|
  {
    if |v| == 4 {
      EncodeOfDecodeFinal(v, b);
    } else if |v| > 4 {
      DecodeValuesUnfold(v);
      var head := DecodeQuantum(v[0], v[1], v[2], v[3]).value;
      var tail := DecodeValues(v[4..]).value;
      EncodeOfDecodeValues(v[4..], tail);
      EncodeOfDecodeThree(v[0], v[1], v[2], v[3]);
      assert v[..4] == [v[0], v[1], v[2], v[3]];
      assert |v[4..]| >= 4;
      EncodeOfDecodeStep(v, b, head, tail);
      ZeroPadValuesOfRest(v);
    }
  }

  /** Canonicality: an accepted input is exactly the encoding of what it
      decodes to if and only if the bits the decoder drops are zero. Inputs
      that differ only in those bits decode alike but re-encode differently. */
  lemma EncodeOfDecode(s: seq<byte>, b: seq<byte>)
    requires Decode(s) == Some(b)
    ensures Encode(b) == s <==> ZeroPadBits(s)
  {
    var v := ValuesOf(s);
    EncodeOfDecodeValues(v, b);
    CharsOfValuesOf(s);
    ValuesOfCharsOf(EncodeValues(b));
  }

  /** Encoding is injective, so distinct byte strings have distinct encodings. */
  lemma EncodeInjective(a: seq<byte>, b: seq<byte>)
    requires Encode(a) == Encode(b)
    ensures a == b
  {
    DecodeOfEncode(a);
    DecodeOfEncode(b);
  }

  /** No encoding contains a byte that is neither a symbol nor `=`; in
      particular none contains `.`. */
  lemma EncodeAvoids(b: seq<byte>, c: byte)
    requires !InAlphabet(c)
    ensures c !in Encode(b)
  {
  }

  /** Four characters for every started group of three bytes. */
  lemma {:induction false} EncodeLength(b: seq<byte>)
    ensures |Encode(b)| == 4 * ((|b| + 2) / 3)
    decreases |b|
  {
    if |b| >= 3 {
      EncodeValuesUnfold(b);
      EncodeLength(b[3..]);
      assert (|b| + 2) / 3 == (|b[3..]| + 2) / 3 + 1;
    }
  }

  /** Every accepted input has exactly the length the encoder gives to what
      it decodes to. */
  lemma {:induction false} DecodeLength(v: seq<int>)
    requires AreValues(v) && DecodeValues(v).Some?
    ensures |v| == 4 * ((|DecodeValues(v).value| + 2) / 3)
    decreases |v|
  {
    if |v| > 4 {
      DecodeValuesUnfold(v);
      DecodeLength(v[4..]);
      var n := |DecodeValues(v[4..]).value|;
      assert |DecodeValues(v).value| == 3 + n;
      assert (3 + n + 2) / 3 == (n + 2) / 3 + 1;
    }
  }
}
