/** Bytes, and the two views of a byte buffer that the C code takes: a plain
    sequence, and a string that stops at the first NUL. */
module Bytes {

  type byte = x: int | 0 <= x < 256

  const NUL: byte := 0
  const BACKSPACE: byte := 8
  const TAB: byte := 9
  const NEWLINE: byte := 10
  const RETURN: byte := 13
  const SPACE: byte := 32

  // A text screen: 80 columns by 25 rows.
  const COLS := 80
  const SCREEN := 2000

  /** The index of the first `b` in `s`, or `|s|` when there is none. */
  function Find(s: seq<byte>, b: byte): (k: nat)
    ensures k <= |s|
    ensures forall i :: 0 <= i < k ==> s[i] != b
    ensures k < |s| ==> s[k] == b
  {
    if s == [] || s[0] == b then 0 else 1 + Find(s[1..], b)
  }

  /** The string stored in a buffer: everything before its first NUL. */
  function CString(s: seq<byte>): (r: seq<byte>)
    ensures r <= s && NUL !in r
    ensures |r| < |s| ==> s[|r|] == NUL
  {
    s[..Find(s, NUL)]
  }

  /** A store after a slice does not change the slice. */
  lemma SliceBeforeStore(s: seq<byte>, a: nat, b: nat, p: nat, v: byte)
    requires a <= b <= p < |s|
    ensures s[p := v][a..b] == s[a..b]
  {
  }

  lemma SliceOfSlice(s: seq<byte>, a: nat, b: nat, c: nat)
    requires a <= b <= c <= |s|
    ensures s[a..c][..b - a] == s[a..b]
  {
  }

  lemma SubSlice(s: seq<byte>, i: nat, j: nat, a: nat, b: nat)
    requires i <= j <= |s| && a <= b <= j - i
    ensures s[i..j][a..b] == s[i + a..i + b]
  {
    var x, y := s[i..j][a..b], s[i + a..i + b];
    assert |x| == |y| && forall k :: 0 <= k < |x| ==> x[k] == s[i..j][a + k] == y[k];
  }

  /** `Find` is the only index with its three properties. */
  lemma FindIs(s: seq<byte>, b: byte, k: nat)
    requires k <= |s| && b !in s[..k]
    requires k < |s| ==> s[k] == b
    ensures Find(s, b) == k
  {
    assert forall i :: 0 <= i < k ==> s[..k][i] == s[i];
  }
}
