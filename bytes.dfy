/** Byte strings and the two search primitives the carvers rely on:
    Python's `bytes.find` (first occurrence) and `bytes.startswith`. */
module Bytes {

  type byte = x: int | 0 <= x < 256

  datatype Option<+T> = None | Some(value: T)

  function Min(a: int, b: int): int { if a <= b then a else b }

  /** `pat` occurs in `s` starting at index `i`. */
  predicate MatchAt(s: seq<byte>, pat: seq<byte>, i: int)
  {
    0 <= i && i + |pat| <= |s| && forall k :: 0 <= k < |pat| ==> s[i + k] == pat[k]
  }

  /** `s.startswith(pat)` */
  predicate StartsWith(s: seq<byte>, pat: seq<byte>)
  {
    |pat| <= |s| && s[..|pat|] == pat
  }

  lemma StartsWithIsMatchAtZero(s: seq<byte>, pat: seq<byte>)
    ensures StartsWith(s, pat) <==> MatchAt(s, pat, 0)
  {
  }

  /** `s.startswith(a) or s.startswith(b) or ...` */
  function StartsWithAny(s: seq<byte>, pats: seq<seq<byte>>): (b: bool)
    ensures b <==> exists k :: 0 <= k < |pats| && StartsWith(s, pats[k])
  {
    if pats == [] then false
    else StartsWith(s, pats[0]) || StartsWithAny(s, pats[1..])
  }

  /** The search behind `Find`: the least match index at or after `i`, or -1. */
  function FindFrom(s: seq<byte>, pat: seq<byte>, i: nat): (r: int)
    ensures r == -1 || (i <= r && MatchAt(s, pat, r))
    decreases |s| - i
  {
    if i + |pat| > |s| then -1
    else if MatchAt(s, pat, i) then i
    else FindFrom(s, pat, i + 1)
  }

  /** `FindFrom` skips no match: -1 means none at or after `i`, an index means none before it. */
  lemma {:induction false} FindFromIsLeast(s: seq<byte>, pat: seq<byte>, i: nat)
    ensures FindFrom(s, pat, i) == -1 ==> forall j :: i <= j ==> !MatchAt(s, pat, j)
    ensures FindFrom(s, pat, i) >= 0 ==> forall j :: i <= j < FindFrom(s, pat, i) ==> !MatchAt(s, pat, j)
    decreases |s| - i
  {
    if i + |pat| <= |s| && !MatchAt(s, pat, i) {
      FindFromIsLeast(s, pat, i + 1);
    }
  }

  /** `s.find(pat)`: the index of the first occurrence of `pat` in `s`, or -1. The facts
      that it is the first one and that -1 means absent are `FindSpec`. */
  function Find(s: seq<byte>, pat: seq<byte>): (r: int)
    ensures r == -1 || MatchAt(s, pat, r)
  {
    FindFrom(s, pat, 0)
  }

  /** `Find` reports -1 exactly when there is no match, and otherwise the first match. */
  lemma FindSpec(s: seq<byte>, pat: seq<byte>)
    ensures Find(s, pat) == -1 <==> forall j :: !MatchAt(s, pat, j)
    ensures Find(s, pat) >= 0 ==> forall j :: j < Find(s, pat) ==> !MatchAt(s, pat, j)
  {
    FindFromIsLeast(s, pat, 0);
  }

  /** A match at `i` with none before it is what `Find` reports. */
  lemma FindIsFirstMatch(s: seq<byte>, pat: seq<byte>, i: int)
    requires MatchAt(s, pat, i)
    requires forall j :: 0 <= j < i ==> !MatchAt(s, pat, j)
    ensures Find(s, pat) == i
  {
    FindSpec(s, pat);
  }

  /** If the first byte of a non-empty pattern never occurs, the pattern does not either. */
  lemma FindAbsentFirstByte(s: seq<byte>, pat: seq<byte>)
    requires |pat| > 0
    requires forall j :: 0 <= j < |s| ==> s[j] != pat[0]
    ensures Find(s, pat) == -1
  {
    FindSpec(s, pat);
    forall j ensures !MatchAt(s, pat, j) {
      if 0 <= j && j + |pat| <= |s| {
        assert s[j..j + |pat|][0] == s[j] != pat[0];
      }
    }
  }

  /** Slicing with Python's clamping: `s[i:j]` for non-negative `i`, `j`. */
  function Slice(s: seq<byte>, i: nat, j: nat): (r: seq<byte>)
    ensures |r| == if Min(j, |s|) <= i then 0 else Min(j, |s|) - i
    ensures i < Min(j, |s|) ==> r == s[i..Min(j, |s|)]
  {
    var hi := Min(j, |s|);
    if hi <= i then [] else s[i..hi]
  }

  /** `int.from_bytes(s, byteorder='big')`: zero exactly when every byte is zero. */
  function BigEndian(s: seq<byte>): (r: nat)
    ensures r == 0 <==> forall k :: 0 <= k < |s| ==> s[k] == 0
  {
    if s == [] then 0 else BigEndian(s[..|s| - 1]) * 256 + s[|s| - 1]
  }

  function Pow256(k: nat): (r: nat)
    ensures r >= 1
  {
    if k == 0 then 1 else 256 * Pow256(k - 1)
  }

  /** Powers of 256 grow with the exponent. */
  lemma {:induction false} Pow256Grows(i: nat, j: nat)
    requires i <= j
    ensures Pow256(i) <= Pow256(j)
    decreases j
  {
    if i < j {
      Pow256Grows(i, j - 1);
    }
  }

  /** A big-endian value of `k` bytes is below 256^k, so a short slice decodes a smaller range. */
  lemma {:induction false} BigEndianBound(s: seq<byte>)
    ensures BigEndian(s) < Pow256(|s|)
  {
    if s != [] {
      BigEndianBound(s[..|s| - 1]);
      assert BigEndian(s[..|s| - 1]) + 1 <= Pow256(|s| - 1);
      calc {
        BigEndian(s);
        == BigEndian(s[..|s| - 1]) * 256 + s[|s| - 1];
        < BigEndian(s[..|s| - 1]) * 256 + 256;
        == (BigEndian(s[..|s| - 1]) + 1) * 256;
        <= Pow256(|s| - 1) * 256;
      }
    }
  }

  /** Four bytes decode as the usual unsigned 32-bit big-endian value. */
  lemma BigEndianFour(s: seq<byte>)
    requires |s| == 4
    ensures BigEndian(s) == s[0] as int * 16777216 + s[1] as int * 65536 + s[2] as int * 256 + s[3] as int
  {
    assert s[..3][..2][..1][..0] == [];
    assert BigEndian(s[..3][..2][..1]) == s[0];
    assert BigEndian(s[..3][..2]) == s[0] as int * 256 + s[1] as int;
    assert BigEndian(s[..3]) == (s[0] as int * 256 + s[1] as int) * 256 + s[2] as int;
  }

  /** `bytes` is the run of `d` that starts at `offset`. */
  predicate IsSliceAt(d: seq<byte>, offset: nat, bytes: seq<byte>)
  {
    offset + |bytes| <= |d| && bytes == d[offset..offset + |bytes|]
  }

  /** Two adjacent runs of `d` make one run. */
  lemma SliceAppend(d: seq<byte>, a: nat, first: seq<byte>, second: seq<byte>)
    requires IsSliceAt(d, a, first) && IsSliceAt(d, a + |first|, second)
    ensures IsSliceAt(d, a, first + second)
  {
    SliceConcat(d, a, a + |first|, a + |first| + |second|);
  }

  /** The tail of a slice followed by the slice right after it is one slice. */
  lemma SliceTailConcat(d: seq<byte>, a: nat, h: nat, b: nat, block: seq<byte>, rest: seq<byte>)
    requires a + h <= b && b + |rest| <= |d|
    requires block == d[a..b] && IsSliceAt(d, b, rest)
    ensures IsSliceAt(d, a + h, block[h..] + rest)
  {
    assert block[h..] == d[a + h..b];
  }

  lemma SliceConcat(d: seq<byte>, a: nat, b: nat, c: nat)
    requires a <= b <= c <= |d|
    ensures d[a..b] + d[b..c] == d[a..c]
  {
  }
}
