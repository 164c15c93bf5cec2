// Byte strings, as Python's bytes.
module ByteStrings {

  /** A byte, written as a character. */
  type Byte = c: char | c as int < 256 witness '\0'
  type Bytes = seq<Byte>

  function Nuls(n: nat): (r: Bytes)
    ensures |r| == n && forall i :: 0 <= i < n ==> r[i] == '\0'
  {
    seq(n, _ => '\0')
  }

  /** `s.rstrip(x)` for one byte or character x. */
  function RStrip<T(==)>(s: seq<T>, x: T): (r: seq<T>)
    ensures r <= s
  {
    if s != [] && s[|s| - 1] == x then RStrip(s[..|s| - 1], x) else s
  }

  /** Every x at the end goes, and nothing else. */
  lemma {:induction false} RStripIs<T>(s: seq<T>, x: T)
    ensures RStrip(s, x) == [] || RStrip(s, x)[|RStrip(s, x)| - 1] != x
    ensures forall i :: |RStrip(s, x)| <= i < |s| ==> s[i] == x
  {
    if s != [] && s[|s| - 1] == x {
      RStripIs(s[..|s| - 1], x);
    }
  }
}
