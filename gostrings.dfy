/**
 * The handful of functions from Go's `strings` and `bytes` packages that the
 * core calls. A Go string and a Go byte slice are both modelled as a
 * `seq<char>` holding one character per byte; no UTF-8 decoding is done.
 */
module GoStrings {

  /** One byte of input, kept as a character so that byte slices and strings mix freely. */
  type byte = char

  /** The whitespace `strings.TrimSpace` removes from ASCII text. */
  const AsciiSpace: set<char> := {' ', '\t', '\n', '\r', '\U{B}', '\U{C}'}

  predicate HasPrefix(s: string, prefix: string) {
    |prefix| <= |s| && s[..|prefix|] == prefix
  }

  predicate HasSuffix(s: string, suffix: string) {
    |suffix| <= |s| && s[|s| - |suffix|..] == suffix
  }

  /** `x` begins `x + y` and `y` ends it. */
  lemma ConcatEnds(x: string, y: string)
    ensures HasPrefix(x + y, x) && HasSuffix(x + y, y)
  {
    assert (x + y)[..|x|] == x;
    assert (x + y)[|x|..] == y;
  }

  /** A prefix of a prefix is a prefix. */
  lemma PrefixOfPrefix(s: string, t: string, u: string)
    requires HasPrefix(s, t) && HasPrefix(t, u)
    ensures HasPrefix(s, u)
  {
    assert s[..|u|] == s[..|t|][..|u|];
  }

  /** A suffix of a suffix is a suffix. */
  lemma SuffixOfSuffix(s: string, t: string, u: string)
    requires HasSuffix(s, t) && HasSuffix(t, u)
    ensures HasSuffix(s, u)
  {
    assert s[|s| - |u|..] == s[|s| - |t|..][|t| - |u|..];
  }

  /** `pat` occurs in `s` starting at index `i`. */
  predicate MatchAt(s: string, pat: string, i: int) {
    0 <= i && i + |pat| <= |s| && s[i..i + |pat|] == pat
  }

  /** `strings.Index` / `bytes.Index`: the first index at which `pat` occurs, or -1. */
  function Index(s: string, pat: string): (r: int)
    ensures -1 <= r <= |s|
    ensures r >= 0 ==> MatchAt(s, pat, r)
    decreases |s|
  {
    if |s| < |pat| then -1
    else if s[..|pat|] == pat then 0
    else
      var k := Index(s[1..], pat);
      if k < 0 then -1
      else
        assert s[1..][k..k + |pat|] == s[k + 1..k + 1 + |pat|];
        k + 1
  }

  /** A match of `pat` in `s` past its first character is one in `s[1..]`, one place earlier. */
  lemma MatchInTail(s: string, pat: string, j: int)
    requires |s| > 0
    ensures MatchAt(s, pat, j) <==> (j == 0 && MatchAt(s, pat, 0)) || (j > 0 && MatchAt(s[1..], pat, j - 1))
  {
    if j > 0 && j + |pat| <= |s| {
      assert s[1..][j - 1..j - 1 + |pat|] == s[j..j + |pat|];
    }
  }

  /** `Index` finds the first match, and answers -1 only when there is none. */
  lemma {:induction false} IndexFirst(s: string, pat: string)
    ensures var r := Index(s, pat);
      (r >= 0 ==> forall j :: 0 <= j < r ==> !MatchAt(s, pat, j)) &&
      (r == -1 ==> forall j :: !MatchAt(s, pat, j))
    decreases |s|
  {
    if |s| >= |pat| && s[..|pat|] != pat {
      IndexFirst(s[1..], pat);
      forall j
        ensures MatchAt(s, pat, j) <==> j > 0 && MatchAt(s[1..], pat, j - 1)
      {
        MatchInTail(s, pat, j);
      }
    }
  }

  /** The smaller of two integers. */
  function Min(a: int, b: int): int {
    if a <= b then a else b
  }

  /** The first `n` elements of `s`, or all of `s` when it is shorter (the bounded copy `s[:min(n, len(s))]`). */
  function Take<T>(s: seq<T>, n: nat): (r: seq<T>)
    ensures |r| == Min(n, |s|) && r == s[..|r|]
  {
    if n <= |s| then s[..n] else s
  }

  /** Strips the leading characters that belong to `cut`. */
  function TrimLeft(s: string, cut: set<char>): (r: string)
    ensures |r| <= |s| && r == s[|s| - |r|..]
    ensures r == [] || r[0] !in cut
    decreases |s|
  {
    if |s| > 0 && s[0] in cut then TrimLeft(s[1..], cut) else s
  }

  /** Everything `TrimLeft` drops is a cut character. */
  lemma {:induction false} TrimLeftDrops(s: string, cut: set<char>)
    ensures forall i :: 0 <= i < |s| - |TrimLeft(s, cut)| ==> s[i] in cut
    decreases |s|
  {
    if |s| > 0 && s[0] in cut {
      TrimLeftDrops(s[1..], cut);
      assert forall i :: 1 <= i < |s| ==> s[i] == s[1..][i - 1];
    }
  }

  /** Strips the trailing characters that belong to `cut`. */
  function TrimRight(s: string, cut: set<char>): (r: string)
    ensures |r| <= |s| && r == s[..|r|]
    ensures r == [] || r[|r| - 1] !in cut
    decreases |s|
  {
    if |s| > 0 && s[|s| - 1] in cut then TrimRight(s[..|s| - 1], cut) else s
  }

  /** Everything `TrimRight` drops is a cut character. */
  lemma {:induction false} TrimRightDrops(s: string, cut: set<char>)
    ensures forall i :: |TrimRight(s, cut)| <= i < |s| ==> s[i] in cut
    decreases |s|
  {
    if |s| > 0 && s[|s| - 1] in cut {
      TrimRightDrops(s[..|s| - 1], cut);
    }
  }

  /** `strings.Trim(s, cutset)` with the cut set given as a set of characters. */
  function Trim(s: string, cut: set<char>): string {
    TrimRight(TrimLeft(s, cut), cut)
  }

  /** `strings.TrimSpace` on ASCII text. */
  function TrimSpace(s: string): string {
    Trim(s, AsciiSpace)
  }

  /** The parts of a `Split`, glued back together with the separator. */
  function Join(parts: seq<string>, sep: char): string {
    if |parts| == 0 then ""
    else if |parts| == 1 then parts[0]
    else parts[0] + [sep] + Join(parts[1..], sep)
  }

  /** `strings.Split(s, sep)` for a one-character separator. */
  function Split(s: string, sep: char): (r: seq<string>)
    ensures |r| >= 1
    ensures Join(r, sep) == s
    ensures forall i :: 0 <= i < |r| ==> sep !in r[i]
    decreases |s|
  {
    var i := Index(s, [sep]);
    IndexFirst(s, [sep]);
    if i < 0 then
      assert forall j :: 0 <= j < |s| ==> !MatchAt(s, [sep], j);
      assert forall j :: 0 <= j < |s| ==> s[j] != sep by {
        forall j | 0 <= j < |s| ensures s[j] != sep {
          assert !MatchAt(s, [sep], j);
          assert s[j..j + 1] == [s[j]];
        }
      }
      [s]
    else
      assert forall j :: 0 <= j < i ==> s[j] != sep by {
        forall j | 0 <= j < i ensures s[j] != sep {
          assert !MatchAt(s, [sep], j);
          assert s[j..j + 1] == [s[j]];
        }
      }
      assert s[i..i + 1] == [sep];
      var rest := Split(s[i + 1..], sep);
      assert s == s[..i] + [sep] + s[i + 1..];
      [s[..i]] + rest
  }

  /** ASCII upper-casing of one byte. */
  function UpperByte(c: char): char {
    if 'a' <= c <= 'z' then (c as int - 32) as char else c
  }

  /** `bytes.ToUpper` restricted to ASCII letters. */
  function ToUpper(s: string): (r: string)
    ensures |r| == |s| && forall i :: 0 <= i < |s| ==> r[i] == UpperByte(s[i])
  {
    seq(|s|, i requires 0 <= i < |s| => UpperByte(s[i]))
  }

  /** `strings.Repeat(s, n)`. */
  function Repeat(s: string, n: nat): (r: string)
    ensures |r| == |s| * n
  {
    if n == 0 then "" else s + Repeat(s, n - 1)
  }
}
