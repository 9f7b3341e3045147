/** String helpers with JavaScript semantics: `toLowerCase`, `includes`,
    `indexOf`, `repeat`, `padStart`, `startsWith` and `slice`. Strings are
    `seq<char>`; lower-casing is the ASCII mapping, which is all the
    addresses and queries of this system ever contain once validated. */
module Text {

  /** `c.toLowerCase()` on an ASCII letter; every other character is kept. */
  function Lower(c: char): (r: char)
    ensures 'A' <= c <= 'Z' ==> r as int == c as int + 32
    ensures !('A' <= c <= 'Z') ==> r == c
  {
    if 'A' <= c <= 'Z' then (c as int + 32) as char else c
  }

  function LowerStr(s: string): (r: string)
    ensures |r| == |s|
    ensures forall i | 0 <= i < |s| :: r[i] == Lower(s[i])
  {
    seq(|s|, i requires 0 <= i < |s| => Lower(s[i]))
  }

  /** No upper-case ASCII letter occurs in `s`. */
  predicate IsLowerCase(s: string) {
    forall i | 0 <= i < |s| :: !('A' <= s[i] <= 'Z')
  }

  lemma LowerStrOfLowerCase(s: string)
    requires IsLowerCase(s)
    ensures LowerStr(s) == s
  {
  }

  lemma LowerStrSlice(s: string, i: nat, j: nat)
    requires i <= j <= |s|
    ensures LowerStr(s)[i..j] == LowerStr(s[i..j])
  {
  }

  /** `c.repeat(n)`: `c` repeated `n` times. */
  function Repeat(c: char, n: nat): (r: string)
    ensures |r| == n
    ensures forall i | 0 <= i < n :: r[i] == c
  {
    seq(n, _ => c)
  }

  /** `s.padStart(width, c)`: left-pad to `width`, never truncate. */
  function PadStart(s: string, width: nat, c: char): (r: string)
    ensures |s| >= width ==> r == s
    ensures |s| < width ==> |r| == width && r[width - |s|..] == s
    ensures forall i | 0 <= i < |r| - |s| :: r[i] == c
  {
    if |s| >= width then s else Repeat(c, width - |s|) + s
  }

  /** Padding commutes with appending one character on the right. */
  lemma PadStartAppend(s: string, width: nat, c: char, x: char)
    requires |s| < width
    ensures PadStart(s + [x], width, c) == PadStart(s, width - 1, c) + [x]
  {
    if |s| < width - 1 {
      assert Repeat(c, width - 1 - |s|) + (s + [x]) == (Repeat(c, width - 1 - |s|) + s) + [x];
    }
  }

  predicate StartsWith(s: string, prefix: string) {
    |prefix| <= |s| && s[..|prefix|] == prefix
  }

  /** `needle` occurs in `hay` starting at position `k`. */
  predicate OccursAt(hay: string, needle: string, k: int) {
    0 <= k && k + |needle| <= |hay| && hay[k..k + |needle|] == needle
  }

  /** `hay.indexOf(needle, from)`: the first occurrence at or after `from`,
      or -1 when there is none. */
  function IndexOfFrom(hay: string, needle: string, from: nat): (r: int)
    ensures r == -1 || (from <= r && OccursAt(hay, needle, r))
    ensures r == -1 <==> forall k | from <= k :: !OccursAt(hay, needle, k)
    ensures r != -1 ==> forall k | from <= k < r :: !OccursAt(hay, needle, k)
    decreases |hay| - from
  {
    if from + |needle| > |hay| then -1
    else if hay[from..from + |needle|] == needle then from
    else IndexOfFrom(hay, needle, from + 1)
  }

  /** `hay.indexOf(needle)`. */
  function IndexOf(hay: string, needle: string): (r: int)
    ensures r == -1 <==> forall k :: !OccursAt(hay, needle, k)
    ensures r != -1 ==> OccursAt(hay, needle, r)
    ensures r != -1 ==> forall k | 0 <= k < r :: !OccursAt(hay, needle, k)
  {
    IndexOfFrom(hay, needle, 0)
  }

  /** `hay.includes(needle)`. */
  predicate Contains(hay: string, needle: string) {
    IndexOf(hay, needle) != -1
  }

  lemma ContainsAt(hay: string, needle: string, k: int)
    requires OccursAt(hay, needle, k)
    ensures Contains(hay, needle)
  {
  }

  /** `s.slice(start, end)` for integer arguments: negative positions count
      from the end, positions past the end are clamped, and an empty range
      gives the empty string. */
  function JsSlice<T>(s: seq<T>, start: int, end: int): (r: seq<T>)
    ensures 0 <= start <= end <= |s| ==> r == s[start..end]
    ensures 0 <= start && |s| <= end && start <= |s| ==> r == s[start..]
    ensures end <= start && 0 <= end ==> r == []
    ensures exists a, b | 0 <= a <= b <= |s| :: r == s[a..b]
  {
    var from := if start < 0 then (if |s| + start < 0 then 0 else |s| + start)
                else if start > |s| then |s| else start;
    var to := if end < 0 then (if |s| + end < 0 then 0 else |s| + end)
              else if end > |s| then |s| else end;
    if from >= to then
      assert s[0..0] == [];
      []
    else s[from..to]
  }
}
