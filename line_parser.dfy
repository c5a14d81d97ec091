/**
 * line_parser.go: line numbers for a parsed document. The raw input is
 * scanned once for line starts, a position is turned into a line by walking
 * that list, and each node is matched to the n-th textual occurrence of its
 * element tag, comment or text. The specification functions say what each
 * search finds; the `LineCountingParser` methods are the Go loops, proved
 * to compute them.
 */
module LineNumbers {
  import opened Wrappers
  import opened GoStrings
  import opened XmlNode
  import opened XmlTree
  import opened XmlParseSpec
  import opened XmlParser

  // ---------------------------------------------------------------------------
  // Line starts and positions

  /** The number of line feeds in `s`. */
  function Newlines(s: string): nat
    decreases |s|
  {
    if s == [] then 0 else Newlines(s[..|s| - 1]) + (if s[|s| - 1] == '\n' then 1 else 0)
  }

  /** The offsets just after each line feed of `d`, in order. */
  function NewlineEnds(d: string): seq<int>
    decreases |d|
  {
    if d == [] then [] else NewlineEnds(d[..|d| - 1]) + (if d[|d| - 1] == '\n' then [|d|] else [])
  }

  /** `lineStarts` as line_parser.go:27-35 builds it: 0, then `i+1` for each line feed at `i`. */
  function LineStarts(d: string): seq<int> {
    [0] + NewlineEnds(d)
  }

  predicate StrictlyIncreasing(s: seq<int>) {
    forall i, j | 0 <= i < j < |s| :: s[i] < s[j]
  }

  /** The line (counting from 1) that offset `pos` of `d` lies on: one more than the line feeds before it. */
  function LineAt(d: string, pos: int): int {
    if pos < 0 then 1 else 1 + Newlines(d[..Min(pos, |d|)])
  }

  /** One line-feed end per line feed, each just after a line feed of `d`. */
  lemma {:induction false} NewlineEndsBounds(d: string)
    ensures var e := NewlineEnds(d);
      |e| == Newlines(d) && forall i | 0 <= i < |e| :: 1 <= e[i] <= |d| && d[e[i] - 1] == '\n'
    decreases |d|
  {
    if d != [] {
      var d' := d[..|d| - 1];
      NewlineEndsBounds(d');
      var e', e := NewlineEnds(d'), NewlineEnds(d);
      assert e == e' + (if d[|d| - 1] == '\n' then [|d|] else []);
      forall i | 0 <= i < |e|
        ensures 1 <= e[i] <= |d| && d[e[i] - 1] == '\n'
      {
        if i < |e'| {
          assert e[i] == e'[i] && d'[e'[i] - 1] == d[e'[i] - 1];
        }
      }
    }
  }

  lemma {:induction false} NewlineEndsIncreasing(d: string)
    ensures StrictlyIncreasing(NewlineEnds(d))
    decreases |d|
  {
    if d != [] {
      var d' := d[..|d| - 1];
      NewlineEndsIncreasing(d');
      NewlineEndsBounds(d');
      var e', e := NewlineEnds(d'), NewlineEnds(d);
      assert e == e' + (if d[|d| - 1] == '\n' then [|d|] else []);
      forall i, j | 0 <= i < j < |e|
        ensures e[i] < e[j]
      {
        assert e[i] == e'[i];
        if j < |e'| {
          assert e[j] == e'[j];
        }
      }
    }
  }

  lemma {:induction false} NewlineEndsComplete(d: string)
    ensures forall x | 1 <= x <= |d| && d[x - 1] == '\n' :: x in NewlineEnds(d)
    decreases |d|
  {
    if d != [] {
      var d' := d[..|d| - 1];
      NewlineEndsComplete(d');
      var e', e := NewlineEnds(d'), NewlineEnds(d);
      assert e == e' + (if d[|d| - 1] == '\n' then [|d|] else []);
      forall x | 1 <= x <= |d| && d[x - 1] == '\n'
        ensures x in e
      {
        if x < |d| {
          assert d'[x - 1] == d[x - 1];
          assert x in e';
        }
      }
    }
  }

  lemma NewlineEndsFacts(d: string)
    ensures var e := NewlineEnds(d);
      StrictlyIncreasing(e) && |e| == Newlines(d) &&
      (forall i | 0 <= i < |e| :: 1 <= e[i] <= |d| && d[e[i] - 1] == '\n') &&
      (forall x | 1 <= x <= |d| && d[x - 1] == '\n' :: x in e)
  {
    NewlineEndsBounds(d);
    NewlineEndsIncreasing(d);
    NewlineEndsComplete(d);
  }

  /**
   * The line starts begin at 0, rise strictly, stay within the input, and
   * mark exactly the offsets that follow a line feed; there is one per line.
   */
  lemma LineStartsSpec(d: string)
    ensures var s := LineStarts(d);
      s[0] == 0 && StrictlyIncreasing(s) && |s| == 1 + Newlines(d) &&
      (forall i | 0 <= i < |s| :: 0 <= s[i] <= |d|) &&
      (forall x | 1 <= x <= |d| :: x in s <==> d[x - 1] == '\n')
  {
    NewlineEndsFacts(d);
    var e := NewlineEnds(d);
    var s := LineStarts(d);
    assert forall i | 1 <= i < |s| :: s[i] == e[i - 1];
    forall x | 1 <= x <= |d| && x in s
      ensures d[x - 1] == '\n'
    {
      var i :| 0 <= i < |s| && s[i] == x;
      assert i > 0;
    }
  }

  /** The line feeds of a prefix end where the prefix ends; every later one ends past it. */
  lemma {:induction false} NewlineEndsPrefix(d: string, m: int)
    requires 0 <= m <= |d|
    ensures var e, p := NewlineEnds(d), NewlineEnds(d[..m]);
      |p| <= |e| && e[..|p|] == p && (forall i | |p| <= i < |e| :: m < e[i])
    decreases |d|
  {
    if m < |d| {
      var d' := d[..|d| - 1];
      NewlineEndsPrefix(d', m);
      assert d'[..m] == d[..m];
    } else {
      assert d[..m] == d;
    }
  }

  /**
   * In the line starts of `d`, the first one past `pos` stands at index
   * `LineAt(d, pos)`: the line of `pos` is the number of line starts at or
   * before it.
   */
  lemma CrossingIsLine(d: string, pos: int, i: int)
    requires 0 <= pos && 0 <= i <= |LineStarts(d)|
    requires forall j | 0 <= j < i :: LineStarts(d)[j] <= pos
    requires i < |LineStarts(d)| ==> pos < LineStarts(d)[i]
    ensures i == LineAt(d, pos)
  {
    var s := LineStarts(d);
    var m := Min(pos, |d|);
    NewlineEndsFacts(d);
    NewlineEndsFacts(d[..m]);
    NewlineEndsPrefix(d, m);
    LineStartsSpec(d);
    var p := NewlineEnds(d[..m]);
    var e := NewlineEnds(d);
    assert forall j | 1 <= j < |s| :: s[j] == e[j - 1];
    assert forall j | 1 <= j <= |p| :: s[j] == p[j - 1] <= m;
    assert |p| + 1 < |s| ==> s[|p| + 1] == e[|p|] > m;
  }

  /** On input without a line feed every position is on line 1. */
  lemma {:induction false} SingleLine(d: string, pos: int)
    requires forall i | 0 <= i < |d| :: d[i] != '\n'
    ensures LineAt(d, pos) == 1
  {
    if pos >= 0 {
      NoNewlines(d[..Min(pos, |d|)]);
    }
  }

  lemma {:induction false} NoNewlines(s: string)
    requires forall i | 0 <= i < |s| :: s[i] != '\n'
    ensures Newlines(s) == 0
    decreases |s|
  {
    if s != [] {
      NoNewlines(s[..|s| - 1]);
    }
  }

  /** Every line is between 1 and the number of lines of the input. */
  lemma LineBounds(d: string, pos: int)
    ensures 1 <= LineAt(d, pos) <= 1 + Newlines(d)
  {
    if pos >= 0 {
      var m := Min(pos, |d|);
      NewlineEndsFacts(d);
      NewlineEndsFacts(d[..m]);
      NewlineEndsPrefix(d, m);
    }
  }

  /** A later position is never on an earlier line. */
  lemma LineMonotone(d: string, p: int, q: int)
    requires p <= q
    ensures LineAt(d, p) <= LineAt(d, q)
  {
    if p >= 0 {
      var m := Min(q, |d|);
      NewlineEndsFacts(d[..m]);
      NewlineEndsFacts(d[..m][..Min(p, |d|)]);
      NewlineEndsPrefix(d[..m], Min(p, |d|));
      assert d[..m][..Min(p, |d|)] == d[..Min(p, |d|)];
    } else {
      LineBounds(d, q);
    }
  }

  // ---------------------------------------------------------------------------
  // Occurrence searches

  /** A match at `j` in a suffix is a match at `pos + j` in the whole. */
  lemma MatchShift(s: string, pat: string, pos: int, j: int)
    requires 0 <= pos <= |s| && 0 <= j
    ensures MatchAt(s[pos..], pat, j) <==> MatchAt(s, pat, pos + j)
  {
    if j + |pat| <= |s| - pos {
      assert s[pos..][j..j + |pat|] == s[pos + j..pos + j + |pat|];
    }
  }

  /**
   * The search loops of line_parser.go:132-143, 204-223 and 236-254: the
   * leftmost match at or after `pos`, then the search resumes after it.
   */
  function Occurrences(d: string, pat: string, pos: int): seq<int>
    requires |pat| > 0 && 0 <= pos <= |d|
    decreases |d| - pos
  {
    var f := Index(d[pos..], pat);
    if f < 0 then [] else [pos + f] + Occurrences(d, pat, pos + f + |pat|)
  }

  /** The i-th occurrence is a match at or after `pos`, and the next one starts after it ends. */
  lemma {:induction false} OccurrenceAt(d: string, pat: string, pos: int, i: int)
    requires |pat| > 0 && 0 <= pos <= |d| && 0 <= i < |Occurrences(d, pat, pos)|
    ensures pos <= Occurrences(d, pat, pos)[i] && MatchAt(d, pat, Occurrences(d, pat, pos)[i])
    ensures i + 1 < |Occurrences(d, pat, pos)| ==>
      Occurrences(d, pat, pos)[i] + |pat| <= Occurrences(d, pat, pos)[i + 1]
    decreases |d| - pos
  {
    var f := Index(d[pos..], pat);
    MatchShift(d, pat, pos, f);
    var next := pos + f + |pat|;
    var r := Occurrences(d, pat, next);
    assert Occurrences(d, pat, pos) == [pos + f] + r;
    if i > 0 {
      OccurrenceAt(d, pat, next, i - 1);
    } else if |r| > 0 {
      OccurrenceAt(d, pat, next, 0);
    }
  }

  /** The occurrences are matches at or after `pos`, in order, none overlapping the next. */
  lemma OccurrencesMatch(d: string, pat: string, pos: int)
    requires |pat| > 0 && 0 <= pos <= |d|
    ensures var o := Occurrences(d, pat, pos);
      (forall i | 0 <= i < |o| :: pos <= o[i] && MatchAt(d, pat, o[i])) &&
      (forall i | 0 <= i < |o| - 1 :: o[i] + |pat| <= o[i + 1])
  {
    forall i | 0 <= i < |Occurrences(d, pat, pos)| {
      OccurrenceAt(d, pat, pos, i);
    }
  }

  /** One round of the search loop: where the next occurrence is, and that the rest are found from after it. */
  lemma OccurrencesStep(d: string, pat: string, pos: int, f: int)
    requires |pat| > 0 && 0 <= pos <= |d| && f == Index(d[pos..], pat)
    ensures f < 0 ==> Occurrences(d, pat, pos) == []
    ensures f >= 0 ==> (pos + f + |pat| <= |d| &&
      Occurrences(d, pat, pos) == [pos + f] + Occurrences(d, pat, pos + f + |pat|))
  {
    if f >= 0 {
      OccurrencesFound(d, pat, pos, f);
    }
  }

  /** The search from `pos` that finds a match `f` further on records it and resumes after it. */
  lemma OccurrencesFound(d: string, pat: string, pos: int, f: int)
    requires |pat| > 0 && 0 <= pos <= |d| && f == Index(d[pos..], pat) && f >= 0
    ensures pos + f + |pat| <= |d|
    ensures Occurrences(d, pat, pos) == [pos + f] + Occurrences(d, pat, pos + f + |pat|)
  {
    MatchShift(d, pat, pos, f);
  }

  /** No match is missed: every match at or after `pos` starts inside one of the occurrences. */
  lemma OccurrencesCover(d: string, pat: string, pos: int, q: int)
    requires |pat| > 0 && 0 <= pos <= q && pos <= |d| && MatchAt(d, pat, q)
    ensures var o := Occurrences(d, pat, pos);
      exists i | 0 <= i < |o| :: o[i] <= q < o[i] + |pat|
  {
    var i := CoveringOccurrence(d, pat, pos, q);
  }

  /** A match at `q` bounds where the search from `pos` finds its first one. */
  lemma FirstMatchFound(d: string, pat: string, pos: int, q: int)
    requires 0 <= pos <= q && pos <= |d| && MatchAt(d, pat, q)
    ensures 0 <= Index(d[pos..], pat) <= q - pos
  {
    MatchShift(d, pat, pos, q - pos);
    IndexFirst(d[pos..], pat);
  }

  /** The index of the occurrence that a match at `q` overlaps. */
  lemma {:induction false} CoveringOccurrence(d: string, pat: string, pos: int, q: int) returns (i: int)
    requires |pat| > 0 && 0 <= pos <= q && pos <= |d| && MatchAt(d, pat, q)
    ensures 0 <= i < |Occurrences(d, pat, pos)|
    ensures Occurrences(d, pat, pos)[i] <= q < Occurrences(d, pat, pos)[i] + |pat|
    decreases |d| - pos
  {
    var f := Index(d[pos..], pat);
    FirstMatchFound(d, pat, pos, q);
    OccurrencesStep(d, pat, pos, f);
    var next := pos + f + |pat|;
    if next <= q {
      var j := CoveringOccurrence(d, pat, next, q);
      i := j + 1;
    } else {
      i := 0;
    }
  }

  /** What the n-th-occurrence searches return: the line of the n-th occurrence, or 1 when there are fewer. */
  function NthLine(d: string, pat: string, n: int): int
    requires |pat| > 0
  {
    var o := Occurrences(d, pat, 0);
    if 1 <= n <= |o| then LineAt(d, o[n - 1]) else 1
  }

  /** `findDeclarationLine` (line_parser.go:226-233): the line of the first `<?xml`, or 1. */
  function DeclarationLine(d: string): int {
    var p := Index(d, "<?xml");
    if p >= 0 then LineAt(d, p) else 1
  }

  /** The declaration line is 1 without a `<?xml`, and otherwise the line of the first one. */
  lemma DeclarationLineSpec(d: string)
    ensures (forall j :: !MatchAt(d, "<?xml", j)) ==> DeclarationLine(d) == 1
    ensures forall p | MatchAt(d, "<?xml", p) && (forall j | 0 <= j < p :: !MatchAt(d, "<?xml", j)) ::
      DeclarationLine(d) == LineAt(d, p)
  {
    var r := Index(d, "<?xml");
    IndexFirst(d, "<?xml");
    forall p | MatchAt(d, "<?xml", p) && (forall j | 0 <= j < p :: !MatchAt(d, "<?xml", j))
      ensures DeclarationLine(d) == LineAt(d, p)
    {
      assert r >= 0 && MatchAt(d, "<?xml", r);
      assert p <= r;
      assert r <= p;
    }
  }

  /**
   * The backward scan of line_parser.go:159-167: from `i` down, the first
   * `<` is an element start unless a `>` comes first.
   */
  function BackToOpen(d: string, i: int): Option<int>
    requires i < |d|
    decreases i + 1
  {
    if i < 0 then None
    else if d[i] == '<' then Some(i)
    else if d[i] == '>' then None
    else BackToOpen(d, i - 1)
  }

  /** The scan finds a `<` with no bracket between it and `i`, and finds nothing exactly when a `>` or the start comes first. */
  lemma {:induction false} BackToOpenSpec(d: string, i: int)
    requires i < |d|
    ensures var r := BackToOpen(d, i);
      (r.Some? ==> (0 <= r.value <= i && d[r.value] == '<' &&
        forall k | r.value < k <= i :: d[k] != '<' && d[k] != '>')) &&
      (r.None? ==> (forall j | 0 <= j <= i && d[j] == '<' :: exists k | j < k <= i :: d[k] == '>'))
    decreases i + 1
  {
    if i >= 0 && d[i] != '<' && d[i] != '>' {
      BackToOpenSpec(d, i - 1);
    }
  }

  /** The element start a `:name` match at `a` belongs to (line_parser.go:157-168). */
  function OpenTag(d: string, a: int): Option<int> {
    if 0 < a <= |d| && d[a - 1] != '<' then BackToOpen(d, a - 1) else None
  }

  /** The element starts found for a run of `:name` matches, in order. */
  function OpenTags(d: string, occ: seq<int>): seq<int>
    decreases |occ|
  {
    if occ == [] then []
    else
      var t := OpenTag(d, occ[0]);
      (if t.Some? then [t.value] else []) + OpenTags(d, occ[1..])
  }

  lemma OpenTagsStep(d: string, occ: seq<int>, more: seq<int>)
    requires occ != [] && more == (var t := OpenTag(d, occ[0]); if t.Some? then [t.value] else [])
    ensures OpenTags(d, occ) == more + OpenTags(d, occ[1..])
  {
  }

  /** `allPositions` of `findNthElementLine` (line_parser.go:122-170). */
  function ElementPositions(d: string, name: string): seq<int> {
    Occurrences(d, "<" + name + ":", 0) + Occurrences(d, "<" + name + ">", 0) +
    Occurrences(d, "<" + name + " ", 0) + OpenTags(d, Occurrences(d, ":" + name, 0))
  }

  /** Each occurrence starts with the pattern's first character. */
  lemma OccurrencesStart(d: string, pat: string)
    requires |pat| > 0
    ensures forall x | x in Occurrences(d, pat, 0) :: 0 <= x < |d| && d[x] == pat[0]
  {
    var o := Occurrences(d, pat, 0);
    forall x | x in o
      ensures 0 <= x < |d| && d[x] == pat[0]
    {
      var i :| 0 <= i < |o| && o[i] == x;
      OccurrenceAt(d, pat, 0, i);
      var m := d[x..x + |pat|];
      assert m == pat;
      assert m[0] == d[x];
    }
  }

  /** Every candidate position of an element is a `<` of the input. */
  lemma ElementPositionsAreTags(d: string, name: string)
    ensures forall x | x in ElementPositions(d, name) :: 0 <= x < |d| && d[x] == '<'
  {
    var p1, p2, p3 := "<" + name + ":", "<" + name + ">", "<" + name + " ";
    assert p1[0] == '<' && p2[0] == '<' && p3[0] == '<';
    OccurrencesStart(d, p1);
    OccurrencesStart(d, p2);
    OccurrencesStart(d, p3);
    OpenTagsAreTags(d, Occurrences(d, ":" + name, 0));
  }

  lemma {:induction false} OpenTagsAreTags(d: string, occ: seq<int>)
    ensures forall x | x in OpenTags(d, occ) :: 0 <= x < |d| && d[x] == '<'
    decreases |occ|
  {
    if occ != [] {
      OpenTagsAreTags(d, occ[1..]);
      var a := occ[0];
      if 0 < a <= |d| && d[a - 1] != '<' {
        BackToOpenSpec(d, a - 1);
      }
    }
  }

  // ---------------------------------------------------------------------------
  // Sorting the candidates

  /** `s` with `x` put in its place, unless it is already there. */
  function InsertSorted(s: seq<int>, x: int): (r: seq<int>)
    ensures forall y :: y in r <==> y in s || y == x
  {
    if s == [] then [x]
    else if x < s[0] then [x] + s
    else if x == s[0] then s
    else
      var t := InsertSorted(s[1..], x);
      assert forall y :: y in s[1..] ==> y in s;
      [s[0]] + t
  }

  /** A strictly increasing sequence stays so behind a head smaller than all its values. */
  lemma ConsIncreasing(h: int, t: seq<int>)
    requires StrictlyIncreasing(t) && forall y | y in t :: h < y
    ensures StrictlyIncreasing([h] + t)
  {
    var r := [h] + t;
    forall i, j | 0 <= i < j < |r|
      ensures r[i] < r[j]
    {
      assert r[j] == t[j - 1] && t[j - 1] in t;
      if i > 0 {
        assert r[i] == t[i - 1];
      }
    }
  }

  /** Inserting into a strictly increasing sequence keeps it strictly increasing. */
  lemma {:induction false} InsertSortedIncreasing(s: seq<int>, x: int)
    requires StrictlyIncreasing(s)
    ensures StrictlyIncreasing(InsertSorted(s, x))
    decreases |s|
  {
    if s != [] && x < s[0] {
      assert InsertSorted(s, x) == [x] + s;
      forall y | y in s
        ensures x < y
      {
        var k :| 0 <= k < |s| && s[k] == y;
        assert k == 0 || s[0] < s[k];
      }
      ConsIncreasing(x, s);
    } else if s != [] && x > s[0] {
      var tail := s[1..];
      var t := InsertSorted(tail, x);
      assert StrictlyIncreasing(tail) by {
        forall i, j | 0 <= i < j < |tail|
          ensures tail[i] < tail[j]
        {
          assert tail[i] == s[i + 1] && tail[j] == s[j + 1];
        }
      }
      InsertSortedIncreasing(tail, x);
      assert InsertSorted(s, x) == [s[0]] + t;
      forall y | y in t
        ensures s[0] < y
      {
        if y != x {
          var k :| 0 <= k < |tail| && tail[k] == y;
          assert s[k + 1] == y;
        }
      }
      ConsIncreasing(s[0], t);
    }
  }

  /** The distinct values of `ps` in ascending order. */
  function SortedSet(ps: seq<int>): (r: seq<int>)
    ensures StrictlyIncreasing(r) && forall y :: y in r <==> y in ps
  {
    if ps == [] then []
    else
      var s := SortedSet(ps[..|ps| - 1]);
      InsertSortedIncreasing(s, ps[|ps| - 1]);
      assert forall y :: y in ps <==> y in ps[..|ps| - 1] || y == ps[|ps| - 1];
      InsertSorted(s, ps[|ps| - 1])
  }

  /** Two strictly increasing sequences with the same values are equal. */
  lemma {:induction false} IncreasingUnique(s: seq<int>, t: seq<int>)
    requires StrictlyIncreasing(s) && StrictlyIncreasing(t) && forall y :: y in s <==> y in t
    ensures s == t
    decreases |s|
  {
    if s != [] {
      assert s[0] in s;
    }
    if t != [] {
      assert t[0] in t;
    }
    if s != [] && t != [] {
      var j :| 0 <= j < |s| && s[j] == t[0];
      var k :| 0 <= k < |t| && t[k] == s[0];
      assert s[0] <= s[j] && t[0] <= t[k];
      assert forall y :: y in s[1..] <==> y in s && y != s[0];
      assert forall y :: y in t[1..] <==> y in t && y != t[0];
      IncreasingUnique(s[1..], t[1..]);
      assert s == [s[0]] + s[1..] && t == [t[0]] + t[1..];
    }
  }

  /** The members of `c` below `x`. */
  ghost function Below(c: set<int>, x: int): set<int> {
    set y | y in c && y < x
  }

  /** The candidates, as a set (`uniquePositions`, line_parser.go:177-180). */
  function Candidates(d: string, name: string): set<int> {
    set x | x in ElementPositions(d, name)
  }

  /** `findNthElementLine`'s answer: the line of the n-th smallest candidate, or 1 when there are fewer. */
  function ElementLine(d: string, name: string, n: int): int {
    var s := SortedSet(ElementPositions(d, name));
    if 1 <= n <= |s| then LineAt(d, s[n - 1]) else 1
  }

  /** When `s` lists `c` in ascending order, exactly `i` members of `c` lie below `s[i]`. */
  lemma {:induction false} RankInSorted(s: seq<int>, c: set<int>, i: int)
    requires StrictlyIncreasing(s) && (forall x :: x in s <==> x in c) && 0 <= i < |s|
    ensures |Below(c, s[i])| == i
    decreases i
  {
    if i == 0 {
      forall y | y in c
        ensures !(y < s[0])
      {
        var k :| 0 <= k < |s| && s[k] == y;
        assert k == 0 || s[0] < s[k];
      }
      assert Below(c, s[i]) == {};
    } else {
      RankInSorted(s, c, i - 1);
      forall y | y in c
        ensures y < s[i] <==> y < s[i - 1] || y == s[i - 1]
      {
        var k :| 0 <= k < |s| && s[k] == y;
        if k < i - 1 {
          assert s[k] < s[i - 1] < s[i];
        } else if k > i - 1 {
          assert k == i || s[i] < s[k];
          assert s[i - 1] < s[i];
        }
      }
      assert s[i - 1] !in Below(c, s[i - 1]);
      assert Below(c, s[i]) == Below(c, s[i - 1]) + {s[i - 1]};
    }
  }

  /** A strictly increasing sequence is as long as the set of its values. */
  lemma {:induction false} IncreasingLength(s: seq<int>, c: set<int>)
    requires StrictlyIncreasing(s) && forall x :: x in s <==> x in c
    ensures |s| == |c|
  {
    if s != [] {
      RankInSorted(s, c, |s| - 1);
      assert c == Below(c, s[|s| - 1]) + {s[|s| - 1]};
    } else {
      assert forall x :: x !in c;
      assert c == {};
    }
  }

  /**
   * The n-th element line is that of the candidate with exactly `n - 1`
   * candidates below it, and 1 when there are fewer than `n` candidates.
   */
  lemma ElementLineSpec(d: string, name: string, n: int)
    ensures var c := Candidates(d, name);
      (1 <= n <= |c| ==> exists x | x in c && |Below(c, x)| == n - 1 :: ElementLine(d, name, n) == LineAt(d, x)) &&
      (!(1 <= n <= |c|) ==> ElementLine(d, name, n) == 1)
  {
    var c := Candidates(d, name);
    var s := SortedSet(ElementPositions(d, name));
    IncreasingLength(s, c);
    if 1 <= n <= |c| {
      RankInSorted(s, c, n - 1);
      assert s[n - 1] in c;
    }
  }

  /** Values that appear once each. */
  predicate Distinct(s: seq<int>) {
    forall i, j | 0 <= i < j < |s| :: s[i] != s[j]
  }

  predicate Sorted(s: seq<int>) {
    forall i, j | 0 <= i < j < |s| :: s[i] <= s[j]
  }

  lemma {:induction false} DistinctOnce(t: seq<int>, v: int)
    requires Distinct(t)
    ensures multiset(t)[v] <= 1
    decreases |t|
  {
    if t != [] {
      var t' := t[..|t| - 1];
      assert t == t' + [t[|t| - 1]];
      DistinctOnce(t', v);
      if t[|t| - 1] == v {
        assert v !in t';
      }
    }
  }

  /** Two equal entries of a sequence are two copies in its multiset. */
  lemma TwoCopies(s: seq<int>, i: int, j: int)
    requires 0 <= i < j < |s|
    ensures s[i] == s[j] ==> multiset(s)[s[i]] >= 2
  {
    assert s == s[..j] + [s[j]] + s[j + 1..];
    assert s[i] == s[..j][i];
  }

  /** A sorted rearrangement of distinct values rises strictly and holds the same values. */
  lemma SortedOfDistinct(s: seq<int>, t: seq<int>)
    requires Sorted(s) && multiset(s) == multiset(t) && Distinct(t)
    ensures StrictlyIncreasing(s) && forall x :: x in s <==> x in t
  {
    forall x
      ensures x in s <==> x in t
    {
      assert x in s <==> x in multiset(s);
      assert x in t <==> x in multiset(t);
    }
    forall i, j | 0 <= i < j < |s|
      ensures s[i] < s[j]
    {
      TwoCopies(s, i, j);
      DistinctOnce(t, s[i]);
    }
  }

  // ---------------------------------------------------------------------------
  // Annotating the tree

  /** The three counters of `annotateLineNumbers` (line_parser.go:78-80), by element name, comment content and text. */
  datatype Tally = Tally(elements: map<string, int>, comments: map<string, int>, texts: map<string, int>)

  /** Counters before the walk: nothing seen yet. */
  const NoneSeen := Tally(map[], map[], map[])

  /** A Go map's value for `k`: 0 when the key is missing. */
  function Count(m: map<string, int>, k: string): int {
    if k in m then m[k] else 0
  }

  /** No count is negative: the counters start empty and only go up. */
  predicate Counted(m: map<string, int>) {
    forall k | k in m :: m[k] >= 0
  }

  /** `m[k]++`. */
  function Bump(m: map<string, int>, k: string): (r: map<string, int>)
    ensures k in r && r[k] == Count(m, k) + 1
    ensures forall j | j != k :: Count(r, j) == Count(m, j)
    ensures Counted(m) ==> Counted(r)
  {
    m[k := Count(m, k) + 1]
  }

  /** The node records and the counters, as the walk carries them. */
  datatype Annotation = Annotation(nodes: seq<Node>, tally: Tally)

  /**
   * The visit of one node (line_parser.go:92-112): a node not yet numbered
   * gets the line of the n-th occurrence of its tag, comment or trimmed
   * text, counting this one; an `xml` declaration gets the line of the
   * first `<?xml`; anything else is left alone.
   */
  function VisitAt(d: string, s: Annotation, n: int): (r: Annotation)
    ensures |r.nodes| == |s.nodes|
  {
    if !(0 <= n < |s.nodes|) || s.nodes[n].lineNumber != 0 then s
    else
      var nd := s.nodes[n];
      var c := s.tally;
      if nd.kind == ElementNode then
        var m := Bump(c.elements, nd.data);
        Annotation(s.nodes[n := nd.(lineNumber := ElementLine(d, nd.data, m[nd.data]))], c.(elements := m))
      else if nd.kind == CommentNode then
        var m := Bump(c.comments, nd.data);
        Annotation(s.nodes[n := nd.(lineNumber := NthLine(d, "<!--" + nd.data + "-->", m[nd.data]))], c.(comments := m))
      else if nd.kind == DeclarationNode && nd.data == "xml" then
        Annotation(s.nodes[n := nd.(lineNumber := DeclarationLine(d))], c)
      else if (nd.kind == TextNode || nd.kind == CharDataNode) && TrimSpace(nd.data) != "" then
        var text := TrimSpace(nd.data);
        var m := Bump(c.texts, text);
        Annotation(s.nodes[n := nd.(lineNumber := NthLine(d, text, m[text]))], c.(texts := m))
      else s
  }

  /** The nodes under `n`, `n` first, in document order. */
  function Preorder(a: Arena, n: int): (ps: seq<int>)
    requires WellLinked(a) && 0 <= n < |a.nodes|
    ensures forall i | 0 <= i < |ps| :: n <= ps[i] < |a.nodes|
    decreases |a.nodes| - n, 1
  {
    [n] + PreorderFirst(a, n, |Children(a, n)|)
  }

  /** The nodes under the first `k` children of `n`, in document order. */
  function PreorderFirst(a: Arena, n: int, k: int): (ps: seq<int>)
    requires WellLinked(a) && 0 <= n < |a.nodes| && 0 <= k <= |Children(a, n)|
    ensures forall i | 0 <= i < |ps| :: n < ps[i] < |a.nodes|
    decreases |a.nodes| - n, 0, k
  {
    if k == 0 then [] else PreorderFirst(a, n, k - 1) + Preorder(a, Children(a, n)[k - 1])
  }

  /** Visits of the listed nodes, one after another. */
  function Visits(d: string, ps: seq<int>, s: Annotation): (r: Annotation)
    ensures |r.nodes| == |s.nodes|
    decreases |ps|
  {
    if ps == [] then s else VisitAt(d, Visits(d, ps[..|ps| - 1], s), ps[|ps| - 1])
  }

  /** Visiting `p` and then `q` is visiting `p + q`. */
  lemma {:induction false} VisitsAppend(d: string, p: seq<int>, q: seq<int>, s: Annotation)
    ensures Visits(d, p + q, s) == Visits(d, q, Visits(d, p, s))
    decreases |q|
  {
    if q != [] {
      var q' := q[..|q| - 1];
      assert (p + q)[..|p + q| - 1] == p + q';
      VisitsAppend(d, p, q', s);
    } else {
      assert p + q == p;
    }
  }

  /** The preorder of `k` children is that of `k - 1`, then the subtree of the k-th. */
  lemma PreorderFirstStep(a: Arena, n: int, k: int)
    requires WellLinked(a) && 0 <= n < |a.nodes| && 0 < k <= |Children(a, n)|
    ensures PreorderFirst(a, n, k) == PreorderFirst(a, n, k - 1) + Preorder(a, Children(a, n)[k - 1])
  {
  }

  /** Visiting the subtree of `n` is visiting `n`, then the subtrees of its children in order. */
  lemma PreorderVisits(d: string, a: Arena, n: int, s: Annotation)
    requires WellLinked(a) && 0 <= n < |a.nodes|
    ensures Visits(d, Preorder(a, n), s) == Visits(d, PreorderFirst(a, n, |Children(a, n)|), VisitAt(d, s, n))
  {
    VisitsAppend(d, [n], PreorderFirst(a, n, |Children(a, n)|), s);
    assert Visits(d, [n], s) == VisitAt(d, s, n) by {
      assert [n][..0] == [];
    }
  }

  /** Node `after` is node `before`, or `before` had no line yet and `after` only adds one that lies in the input. */
  predicate Relined(d: string, before: Node, after: Node) {
    after == before ||
    (before.lineNumber == 0 && after == before.(lineNumber := after.lineNumber) && 1 <= after.lineNumber <= 1 + Newlines(d))
  }

  /** Renumbering twice is renumbering once: a numbered node is never visited again. */
  lemma RelinedTwice(d: string, x: Node, y: Node, z: Node)
    requires Relined(d, x, y) && Relined(d, y, z)
    ensures Relined(d, x, z)
  {
  }

  /** Lines found by the searches lie in the input. */
  lemma ElementLineBounds(d: string, name: string, n: int)
    ensures 1 <= ElementLine(d, name, n) <= 1 + Newlines(d)
  {
    var s := SortedSet(ElementPositions(d, name));
    if 1 <= n <= |s| {
      LineBounds(d, s[n - 1]);
    }
  }

  lemma NthLineBounds(d: string, pat: string, n: int)
    requires |pat| > 0
    ensures 1 <= NthLine(d, pat, n) <= 1 + Newlines(d)
  {
    var o := Occurrences(d, pat, 0);
    if 1 <= n <= |o| {
      LineBounds(d, o[n - 1]);
    }
  }

  lemma DeclarationLineBounds(d: string)
    ensures 1 <= DeclarationLine(d) <= 1 + Newlines(d)
  {
    LineBounds(d, Index(d, "<?xml"));
  }

  /** A visit renumbers at most the visited node, and only by giving it a line of the input. */
  lemma VisitRelines(d: string, s: Annotation, n: int)
    ensures var r := VisitAt(d, s, n);
      forall i | 0 <= i < |s.nodes| :: Relined(d, s.nodes[i], r.nodes[i]) && (i != n ==> r.nodes[i] == s.nodes[i])
  {
    if 0 <= n < |s.nodes| {
      var nd := s.nodes[n];
      var c := s.tally;
      if nd.lineNumber != 0 {
      } else if nd.kind == ElementNode {
        ElementLineBounds(d, nd.data, Count(c.elements, nd.data) + 1);
      } else if nd.kind == CommentNode {
        NthLineBounds(d, "<!--" + nd.data + "-->", Count(c.comments, nd.data) + 1);
      } else if nd.kind == DeclarationNode && nd.data == "xml" {
        DeclarationLineBounds(d);
      } else if (nd.kind == TextNode || nd.kind == CharDataNode) && TrimSpace(nd.data) != "" {
        NthLineBounds(d, TrimSpace(nd.data), Count(c.texts, TrimSpace(nd.data)) + 1);
      }
    }
  }

  /** A run of visits renumbers only listed nodes, each at most once, with lines of the input. */
  lemma {:induction false} VisitsRelines(d: string, ps: seq<int>, s: Annotation)
    ensures var r := Visits(d, ps, s);
      forall i | 0 <= i < |s.nodes| :: Relined(d, s.nodes[i], r.nodes[i]) && (i !in ps ==> r.nodes[i] == s.nodes[i])
    decreases |ps|
  {
    if ps != [] {
      var ps' := ps[..|ps| - 1];
      VisitsRelines(d, ps', s);
      var mid := Visits(d, ps', s);
      VisitRelines(d, mid, ps[|ps| - 1]);
      forall i | 0 <= i < |s.nodes|
        ensures Relined(d, s.nodes[i], Visits(d, ps, s).nodes[i])
        ensures i !in ps ==> Visits(d, ps, s).nodes[i] == s.nodes[i]
      {
        if i == ps[|ps| - 1] {
          RelinedTwice(d, s.nodes[i], mid.nodes[i], Visits(d, ps, s).nodes[i]);
        } else {
          assert i in ps' ==> i in ps;
        }
      }
    }
  }

  /**
   * What the annotation of the subtree at `n` changes: only line numbers,
   * only of nodes that had none, only to lines of the input, and nothing
   * outside the subtree (in particular no node older than `n`).
   */
  lemma AnnotateRelines(d: string, a: Arena, n: int, s: Annotation)
    requires WellLinked(a) && 0 <= n < |a.nodes|
    ensures var r := Visits(d, Preorder(a, n), s);
      forall i | 0 <= i < |s.nodes| ::
        Relined(d, s.nodes[i], r.nodes[i]) &&
        (i !in Preorder(a, n) ==> r.nodes[i] == s.nodes[i]) &&
        (i < n ==> r.nodes[i] == s.nodes[i])
  {
    VisitsRelines(d, Preorder(a, n), s);
  }

  /** On a one-line input every node that gets a line gets line 1. */
  lemma SingleLineAnnotation(d: string, a: Arena, n: int, s: Annotation)
    requires WellLinked(a) && 0 <= n < |a.nodes| && forall j | 0 <= j < |d| :: d[j] != '\n'
    ensures var r := Visits(d, Preorder(a, n), s);
      forall i | 0 <= i < |s.nodes| :: r.nodes[i] == s.nodes[i] || r.nodes[i] == s.nodes[i].(lineNumber := 1)
  {
    AnnotateRelines(d, a, n, s);
    NoNewlines(d);
  }

  /**
   * The tree after `annotateLineNumbers(doc)` (line_parser.go:76-84): the
   * walk from the root with fresh counters. It keeps every link, keeps the
   * tree well linked, and renumbers only nodes that had no line.
   */
  function Annotated(d: string, a: Arena): (r: Arena)
    requires WellLinked(a) && |a.nodes| > 0
    ensures r.(nodes := a.nodes) == a && |r.nodes| == |a.nodes| && WellLinked(r)
    ensures forall i | 0 <= i < |a.nodes| :: Relined(d, a.nodes[i], r.nodes[i])
  {
    var nodes := Visits(d, Preorder(a, 0), Annotation(a.nodes, NoneSeen)).nodes;
    AnnotateRelines(d, a, 0, Annotation(a.nodes, NoneSeen));
    RelabelledLinked(a, nodes);
    a.(nodes := nodes)
  }

  /** The three counter maps of line_parser.go:78-80, shared by every call of the walk. */
  class Counters {
    var elements: map<string, int>
    var comments: map<string, int>
    var texts: map<string, int>

    function Counts(): Tally
      reads this
    {
      Tally(elements, comments, texts)
    }

    /** `make(map[string]int)`, three times. */
    constructor ()
      ensures Counts() == NoneSeen
    {
      elements, comments, texts := map[], map[], map[];
    }
  }

  /** A `Tree` object holding the arena `a`. */
  method TreeOf(a: Arena) returns (t: Tree)
    requires |a.nodes| > 0
    ensures fresh(t) && t.Snapshot() == a
  {
    t := new Tree(a.nodes[0]);
    t.nodes, t.parent, t.firstChild, t.lastChild, t.prevSibling, t.nextSibling :=
      a.nodes, a.parent, a.firstChild, a.lastChild, a.prevSibling, a.nextSibling;
  }

  /**
   * `ParseWithLineNumbers` / `ParseWithLineNumbersAndOptions`
   * (line_parser.go:12-50) on an input already read: line starts first,
   * then the standard parse of the input's tokens, then the annotation.
   */
  method ParseWithLineNumbers(data: seq<byte>, input: seq<Lexeme>, strict: bool) returns (res: Result<Arena, ParseError>)
    ensures var doc := ParseDocument(input, strict, AsWritten);
      (doc.Err? ==> res == Err(doc.error)) &&
      (doc.Ok? ==> res == Ok(Annotated(data, doc.value)))
  {
    var parser := new LineCountingParser(data);
    var doc := ParseWithOptions(input, strict);
    if doc.Err? {
      return Err(doc.error);
    }
    var tree := TreeOf(doc.value);
    parser.AnnotateLineNumbers(tree, 0);
    res := Ok(tree.Snapshot());
  }

  /** The double loop of line_parser.go:188-194: exchange `a[i]` and `a[j]` whenever they are out of order. */
  method ExchangeSort(a: array<int>)
    modifies a
    ensures Sorted(a[..]) && multiset(a[..]) == multiset(old(a[..]))
  {
    var i := 0;
    while i < a.Length
      invariant 0 <= i <= a.Length
      invariant forall p, q | 0 <= p < i && p < q < a.Length :: a[p] <= a[q]
      invariant multiset(a[..]) == multiset(old(a[..]))
    {
      var j := i + 1;
      while j < a.Length
        invariant i < j <= a.Length || j == i + 1
        invariant forall p, q | 0 <= p < i && p < q < a.Length :: a[p] <= a[q]
        invariant forall q | i < q < j :: a[i] <= a[q]
        invariant multiset(a[..]) == multiset(old(a[..]))
      {
        if a[i] > a[j] {
          a[i], a[j] := a[j], a[i];
        }
        j := j + 1;
      }
      i := i + 1;
    }
  }

  /** `lineCountingParser` (line_parser.go:52-56). */
  class LineCountingParser {
    const data: seq<byte>
    const lineStarts: seq<int>

    predicate Valid() {
      lineStarts == LineStarts(data)
    }

    /** The set-up of line_parser.go:25-35: the line starts are precomputed by one pass over the input. */
    constructor (data: seq<byte>)
      ensures this.data == data && Valid()
    {
      var starts := [0];
      for i := 0 to |data|
        invariant starts == LineStarts(data[..i])
      {
        assert data[..i + 1][..i] == data[..i];
        if data[i] == '\n' {
          starts := starts + [i + 1];
        }
      }
      assert data[..|data|] == data;
      this.data := data;
      lineStarts := starts;
    }

    /** `getLineForPosition` (line_parser.go:59-73, repeated at parse.go:504-517). */
    method GetLineForPosition(pos: int) returns (line: int)
      requires Valid()
      ensures line == LineAt(data, pos)
    {
      if pos < 0 {
        return 1;
      }
      LineStartsSpec(data);
      line := 1;
      var i := 0;
      while i < |lineStarts|
        invariant 0 <= i <= |lineStarts|
        invariant forall j | 0 <= j < i :: lineStarts[j] <= pos
        invariant line == if i == 0 then 1 else i
      {
        if pos < lineStarts[i] {
          CrossingIsLine(data, pos, i);
          return i;
        }
        line := i + 1;
        i := i + 1;
      }
      CrossingIsLine(data, pos, i);
    }

    /** One `bytes.Index` call of the search loops: the next match at or after `pos`, or -1 when there is none. */
    method NextOccurrence(pattern: string, pos: int) returns (at: int)
      requires |pattern| > 0 && 0 <= pos <= |data|
      ensures at < 0 ==> Occurrences(data, pattern, pos) == []
      ensures at >= 0 ==> (pos <= at && at + |pattern| <= |data| &&
        Occurrences(data, pattern, pos) == [at] + Occurrences(data, pattern, at + |pattern|))
    {
      var found := Index(data[pos..], pattern);
      OccurrencesStep(data, pattern, pos, found);
      at := if found < 0 then -1 else pos + found;
    }

    /**
     * The search loop shared by `findNthCommentLine` (line_parser.go:204-223)
     * and `findNthTextLine` (line_parser.go:236-254): count the matches of
     * `pattern` from the left, resuming after each, and answer the line of
     * the n-th.
     */
    method FindNth(pattern: string, n: int) returns (line: int)
      requires Valid() && |pattern| > 0
      ensures line == NthLine(data, pattern, n)
    {
      ghost var occ := Occurrences(data, pattern, 0);
      ghost var done: seq<int> := [];
      var pos := 0;
      var count := 0;
      while true
        invariant 0 <= pos <= |data| && count == |done|
        invariant done + Occurrences(data, pattern, pos) == occ
        invariant count < n || n < 1
        decreases |data| - pos
      {
        var at := NextOccurrence(pattern, pos);
        if at < 0 {
          break;
        }
        ghost var rest := Occurrences(data, pattern, at + |pattern|);
        assert occ == (done + [at]) + rest;
        done := done + [at];
        count := count + 1;
        if count == n {
          assert occ[n - 1] == done[n - 1] == at;
          line := GetLineForPosition(at);
          return;
        }
        pos := at + |pattern|;
      }
      assert done + [] == done;
      line := 1;
    }

    /** `findNthCommentLine` (line_parser.go:204-223): the n-th `<!--content-->`. */
    method FindNthCommentLine(content: string, n: int) returns (line: int)
      requires Valid()
      ensures line == NthLine(data, "<!--" + content + "-->", n)
    {
      line := FindNth("<!--" + content + "-->", n);
    }

    /** `findNthTextLine` (line_parser.go:236-254): the n-th occurrence of the text itself. */
    method FindNthTextLine(text: string, n: int) returns (line: int)
      requires Valid() && |text| > 0
      ensures line == NthLine(data, text, n)
    {
      line := FindNth(text, n);
    }

    /** `findDeclarationLine` (line_parser.go:226-233). */
    method FindDeclarationLine() returns (line: int)
      requires Valid()
      ensures line == DeclarationLine(data)
    {
      var pos := Index(data, "<?xml");
      if pos >= 0 {
        line := GetLineForPosition(pos);
      } else {
        line := 1;
      }
    }

    /** One pattern's loop in `findNthElementLine` (line_parser.go:132-144): every match is appended. */
    method CollectMatches(pattern: string, all: seq<int>) returns (r: seq<int>)
      requires |pattern| > 0
      ensures r == all + Occurrences(data, pattern, 0)
    {
      r := all;
      var pos := 0;
      while true
        invariant 0 <= pos <= |data|
        invariant r + Occurrences(data, pattern, pos) == all + Occurrences(data, pattern, 0)
        decreases |data| - pos
      {
        var at := NextOccurrence(pattern, pos);
        if at < 0 {
          break;
        }
        ghost var rest := Occurrences(data, pattern, at + |pattern|);
        assert r + ([at] + rest) == (r + [at]) + rest;
        r := r + [at];
        pos := at + |pattern|;
      }
      assert r + [] == r;
    }

    /** The backward scan of line_parser.go:159-167, from offset `i` down. */
    method ScanBack(i: int) returns (r: Option<int>)
      requires 0 <= i < |data|
      ensures r == BackToOpen(data, i)
    {
      var j := i;
      while j >= 0
        invariant -1 <= j <= i
        invariant BackToOpen(data, j) == BackToOpen(data, i)
        decreases j + 1
      {
        if data[j] == '<' {
          return Some(j);
        } else if data[j] == '>' {
          return None;
        }
        j := j - 1;
      }
      r := None;
    }

    /** Lines 157-168: the element start of a `:name` match at `abs`, if it is not right after a `<`. */
    method ElementStart(abs: int) returns (t: Option<int>)
      ensures t == OpenTag(data, abs)
    {
      t := None;
      if 0 < abs <= |data| && data[abs - 1] != '<' {
        t := ScanBack(abs - 1);
      }
    }

    /** The `:name` loop of `findNthElementLine` (line_parser.go:146-170): each match contributes its element start, if any. */
    method CollectOpenTags(pattern: string, all: seq<int>) returns (r: seq<int>)
      requires |pattern| > 0
      ensures r == all + OpenTags(data, Occurrences(data, pattern, 0))
    {
      r := all;
      var pos := 0;
      while true
        invariant 0 <= pos <= |data|
        invariant r + OpenTags(data, Occurrences(data, pattern, pos)) == all + OpenTags(data, Occurrences(data, pattern, 0))
        decreases |data| - pos
      {
        var next, more := TagRound(pattern, pos);
        if next < 0 {
          break;
        }
        ghost var rest := OpenTags(data, Occurrences(data, pattern, next));
        assert r + (more + rest) == (r + more) + rest;
        r := r + more;
        pos := next;
      }
    }

    /** One round of that loop (lines 151-169): the next match, its element start if any, and where the search resumes (-1 when done). */
    method TagRound(pattern: string, pos: int) returns (next: int, more: seq<int>)
      requires |pattern| > 0 && 0 <= pos <= |data|
      ensures next < 0 ==> Occurrences(data, pattern, pos) == []
      ensures next >= 0 ==> (pos < next <= |data| &&
        OpenTags(data, Occurrences(data, pattern, pos)) == more + OpenTags(data, Occurrences(data, pattern, next)))
    {
      var at := NextOccurrence(pattern, pos);
      if at < 0 {
        return -1, [];
      }
      var t := ElementStart(at);
      more := if t.Some? then [t.value] else [];
      ghost var rest := Occurrences(data, pattern, at + |pattern|);
      assert ([at] + rest)[0] == at && ([at] + rest)[1..] == rest;
      OpenTagsStep(data, [at] + rest, more);
      next := at + |pattern|;
    }

    /** Lines 122-170 of `findNthElementLine`: every candidate position, in the order the four searches find them. */
    method ElementCandidates(name: string) returns (all: seq<int>)
      ensures all == ElementPositions(data, name)
    {
      var p1, p2, p3, p4 := "<" + name + ":", "<" + name + ">", "<" + name + " ", ":" + name;
      ghost var o1, o2, o3 := Occurrences(data, p1, 0), Occurrences(data, p2, 0), Occurrences(data, p3, 0);
      ghost var o4 := OpenTags(data, Occurrences(data, p4, 0));
      all := CollectMatches(p1, []);
      assert all == o1;
      all := CollectMatches(p2, all);
      all := CollectMatches(p3, all);
      all := CollectOpenTags(p4, all);
      assert all == o1 + o2 + o3 + o4;
    }

    /**
     * Lines 177-185: the positions go into a map, and ranging over the map
     * yields each one once. Go leaves that order open; here it is the order
     * of first appearance, and the sort that follows makes the result the
     * same for every order.
     */
    method UniquePositions(all: seq<int>) returns (keys: seq<int>)
      ensures Distinct(keys) && forall x :: x in keys <==> x in all
    {
      var unique: map<int, bool> := map[];
      for i := 0 to |all|
        invariant forall x :: x in unique <==> x in all[..i]
      {
        assert all[..i + 1] == all[..i] + [all[i]];
        unique := unique[all[i] := true];
      }
      assert all[..|all|] == all;
      keys := [];
      var rest := unique;
      for i := 0 to |all|
        invariant forall x :: x in rest <==> x in unique && x !in keys
        invariant forall x :: x in keys ==> x in unique
        invariant forall x :: x in unique ==> x in keys || x in all[i..]
        invariant Distinct(keys)
      {
        if all[i] in rest {
          keys := keys + [all[i]];
          rest := rest - {all[i]};
        }
      }
    }

    /**
     * `findNthElementLine` (line_parser.go:121-201): collect the candidate
     * positions, drop duplicates, sort them, and answer the line of the n-th.
     */
    method FindNthElementLine(name: string, n: int) returns (line: int)
      requires Valid() && n >= 1
      ensures line == ElementLine(data, name, n)
    {
      var all := ElementCandidates(name);
      if |all| == 0 {
        return 1;
      }
      var keys := UniquePositions(all);
      var sorted := new int[|keys|](k requires 0 <= k < |keys| => keys[k]);
      assert sorted[..] == keys;
      ExchangeSort(sorted);
      SortedOfDistinct(sorted[..], keys);
      IncreasingUnique(sorted[..], SortedSet(all));
      if n <= sorted.Length {
        line := GetLineForPosition(sorted[n - 1]);
      } else {
        line := 1;
      }
    }

    /** The `switch` of `annotateNodeWithCounters` (line_parser.go:92-112) on node `n`. */
    method VisitNode(tree: Tree, n: int, counters: Counters)
      requires Valid() && 0 <= n < |tree.nodes| && Counted(counters.elements)
      modifies tree, counters
      ensures tree.Snapshot() == old(tree.Snapshot()).(nodes := tree.nodes) && Counted(counters.elements)
      ensures Annotation(tree.nodes, counters.Counts()) == VisitAt(data, Annotation(old(tree.nodes), old(counters.Counts())), n)
    {
      var nd := tree.nodes[n];
      if nd.lineNumber != 0 {
        return;
      }
      if nd.kind == ElementNode {
        counters.elements := Bump(counters.elements, nd.data);
        var line := FindNthElementLine(nd.data, counters.elements[nd.data]);
        tree.SetNode(n, nd.(lineNumber := line));
      } else if nd.kind == CommentNode {
        counters.comments := Bump(counters.comments, nd.data);
        var line := FindNthCommentLine(nd.data, counters.comments[nd.data]);
        tree.SetNode(n, nd.(lineNumber := line));
      } else if nd.kind == DeclarationNode {
        if nd.data == "xml" {
          var line := FindDeclarationLine();
          tree.SetNode(n, nd.(lineNumber := line));
        }
      } else if nd.kind == TextNode || nd.kind == CharDataNode {
        var text := TrimSpace(nd.data);
        if text != "" {
          counters.texts := Bump(counters.texts, text);
          var line := FindNthTextLine(text, counters.texts[text]);
          tree.SetNode(n, nd.(lineNumber := line));
        }
      }
    }

    /**
     * `annotateNodeWithCounters` (line_parser.go:87-118): nothing for nil;
     * otherwise visit the node, then each child in turn, their subtrees
     * sharing the counters. The links of `tree` are those of `a` throughout.
     */
    method AnnotateNodeWithCounters(tree: Tree, n: int, counters: Counters, ghost a: Arena)
      requires Valid() && WellLinked(a) && (n == Nil || 0 <= n < |a.nodes|) && Counted(counters.elements)
      requires tree.Snapshot() == a.(nodes := tree.nodes) && |tree.nodes| == |a.nodes|
      modifies tree, counters
      ensures tree.Snapshot() == a.(nodes := tree.nodes) && |tree.nodes| == |a.nodes| && Counted(counters.elements)
      ensures n == Nil ==> tree.nodes == old(tree.nodes) && counters.Counts() == old(counters.Counts())
      ensures n != Nil ==> (Annotation(tree.nodes, counters.Counts()) ==
        Visits(data, Preorder(a, n), Annotation(old(tree.nodes), old(counters.Counts()))))
      decreases |a.nodes| - n
    {
      if n == Nil {
        return;
      }
      ghost var s0 := Annotation(tree.nodes, counters.Counts());
      VisitNode(tree, n, counters);
      ghost var v := Annotation(tree.nodes, counters.Counts());
      ghost var cs := Children(a, n);
      ChildrenFacts(a, n);
      var child := tree.firstChild[n];
      ghost var k := 0;
      while child != Nil
        invariant 0 <= k <= |cs|
        invariant child == (if k < |cs| then cs[k] else Nil)
        invariant tree.Snapshot() == a.(nodes := tree.nodes) && |tree.nodes| == |a.nodes| && Counted(counters.elements)
        invariant Annotation(tree.nodes, counters.Counts()) == Visits(data, PreorderFirst(a, n, k), v)
        decreases |cs| - k
      {
        ChildStep(a, n, k);
        AnnotateNodeWithCounters(tree, child, counters, a);
        PreorderFirstStep(a, n, k + 1);
        VisitsAppend(data, PreorderFirst(a, n, k), Preorder(a, cs[k]), v);
        child := tree.nextSibling[child];
        k := k + 1;
      }
      PreorderVisits(data, a, n, s0);
    }

    /** `annotateLineNumbers` (line_parser.go:76-84): the walk from `doc` with fresh counters; it never fails. */
    method AnnotateLineNumbers(tree: Tree, doc: int)
      requires Valid() && WellLinked(tree.Snapshot()) && 0 <= doc < |tree.nodes|
      modifies tree
      ensures tree.Snapshot() == old(tree.Snapshot()).(nodes :=
        Visits(data, Preorder(old(tree.Snapshot()), doc), Annotation(old(tree.nodes), NoneSeen)).nodes)
    {
      ghost var a := tree.Snapshot();
      var counters := new Counters();
      AnnotateNodeWithCounters(tree, doc, counters, a);
    }
  }
}
