/** Go's fixed-width value types, as subsets of Dafny's unbounded integers. */
module GoTypes {

  /** A Go `byte` (`uint8`). A Go `string` is a sequence of these. */
  type byte = x: int | 0 <= x < 0x100

  const MinInt64: int := -0x8000_0000_0000_0000
  const MaxInt64: int := 0x7fff_ffff_ffff_ffff

  /** A Go `int64`; `time.Duration` is one too (a count of nanoseconds). */
  type int64 = x: int | MinInt64 <= x <= MaxInt64

  /** The bytes of an ASCII string literal, as Go stores it. */
  function Ascii(s: string): (r: seq<byte>)
    requires forall i :: 0 <= i < |s| ==> s[i] as int < 0x80
    ensures |r| == |s|
    ensures forall i :: 0 <= i < |s| ==> r[i] == s[i] as int
  {
    seq(|s|, i requires 0 <= i < |s| => s[i] as int)
  }
}
