/**
 * The handful of Python `str` operations that the outline parser and the
 * bullet splitter are built from: `in`/`index` on one character, `split`,
 * `strip`, `lstrip(chars)`, `rstrip` and `replace`, and the set of
 * line-boundary characters `splitlines` cuts at.
 */
module Text {
  import opened Wrappers

  /** The characters `str.strip()` removes: exactly those for which `str.isspace()` holds. */
  predicate IsSpace(c: char) {
    || '\t' <= c <= '\r'
    || '\U{001C}' <= c <= ' '
    || c == '\U{0085}' || c == '\U{00A0}' || c == '\U{1680}'
    || '\U{2000}' <= c <= '\U{200A}'
    || c == '\U{2028}' || c == '\U{2029}' || c == '\U{202F}' || c == '\U{205F}' || c == '\U{3000}'
  }

  /** The line boundaries of `str.splitlines()` (`"\r\n"` counts as two of them here, see `Lines`). */
  const LineBreaks: set<char> := {
    '\n', '\r', '\U{000B}', '\U{000C}', '\U{001C}', '\U{001D}', '\U{001E}',
    '\U{0085}', '\U{2028}', '\U{2029}'
  }

  /**
   * Index of the first element of `s` that is in `cs`, or `|s|` when there is
   * none: `c in s` with `s.index(c)` on text, and the placeholder search of
   * the deck assembler on type codes.
   */
  function Find<T(==)>(s: seq<T>, cs: set<T>): (i: nat)
    ensures i <= |s|
  {
    if s == [] then 0
    else if s[0] in cs then 0
    else 1 + Find(s[1..], cs)
  }

  /** `Find` passes only elements outside `cs` and stops at the end or at one inside `cs`. */
  lemma {:induction false} FindFacts<T>(s: seq<T>, cs: set<T>)
    ensures forall k :: 0 <= k < Find(s, cs) ==> s[k] !in cs
    ensures Find(s, cs) < |s| ==> s[Find(s, cs)] in cs
    decreases |s|
  {
    if s != [] && s[0] !in cs {
      FindFacts(s[1..], cs);
      assert forall k :: 1 <= k < |s| ==> s[k] == s[1..][k - 1];
    }
  }

  /** Any position with that property is where `Find` stops. */
  lemma FindIs<T>(s: seq<T>, cs: set<T>, n: nat)
    requires n <= |s|
    requires forall k :: 0 <= k < n ==> s[k] !in cs
    requires n == |s| || s[n] in cs
    ensures Find(s, cs) == n
  {
    FindFacts(s, cs);
  }

  /**
   * `c in s` followed by `s.split(c, 1)`: the text before and after the first
   * `c`, or `None` when `s` has no `c`.
   */
  function SplitOnce(s: string, c: char): Option<(string, string)> {
    var i := Find(s, {c});
    if i == |s| then None else Some((s[..i], s[i + 1..]))
  }

  /** `SplitOnce` fails exactly when there is no `c`, and otherwise cuts at the first `c`. */
  lemma SplitOnceFacts(s: string, c: char)
    ensures SplitOnce(s, c).None? <==> c !in s
    ensures SplitOnce(s, c).Some? ==>
      var (a, b) := SplitOnce(s, c).value; s == a + [c] + b && c !in a
  {
    FindFacts(s, {c});
    var i := Find(s, {c});
    if i < |s| {
      assert s == s[..i] + [c] + s[i + 1..];
    }
  }

  /** The decomposition `SplitOnce` returns is the only one whose first part has no `c`. */
  lemma SplitOnceIs(a: string, c: char, b: string)
    requires c !in a
    ensures SplitOnce(a + [c] + b, c) == Some((a, b))
  {
    var s := a + [c] + b;
    FindIs(s, {c}, |a|);
    assert s[..|a|] == a && s[|a| + 1..] == b;
  }

  /** Every character of `s` satisfies `p` (vacuously true of the empty string). */
  predicate AllIn(s: string, p: char -> bool) {
    forall k :: 0 <= k < |s| ==> p(s[k])
  }

  /** A text around one character satisfies `p` throughout exactly when both parts and the character do. */
  lemma AllInAround(a: string, c: char, b: string, p: char -> bool)
    ensures AllIn(a + [c] + b, p) <==> AllIn(a, p) && p(c) && AllIn(b, p)
  {
    var s := a + [c] + b;
    assert forall k :: 0 <= k < |a| ==> s[k] == a[k];
    assert s[|a|] == c;
    assert forall k :: 0 <= k < |b| ==> s[|a| + 1 + k] == b[k];
  }

  /** `s.lstrip(chars)`: drops the longest prefix made only of characters satisfying `p`. */
  function LStrip(s: string, p: char -> bool): (r: string)
    ensures |r| <= |s|
    decreases |s|
  {
    if s != [] && p(s[0]) then LStrip(s[1..], p) else s
  }

  /** What `LStrip` keeps is a suffix of its input, all it drops satisfies `p`, and what it keeps does not start with such a character. */
  lemma {:induction false} LStripFacts(s: string, p: char -> bool)
    ensures LStrip(s, p) == s[|s| - |LStrip(s, p)|..]
    ensures forall k :: 0 <= k < |s| - |LStrip(s, p)| ==> p(s[k])
    ensures LStrip(s, p) == [] || !p(LStrip(s, p)[0])
    decreases |s|
  {
    if s != [] && p(s[0]) {
      LStripFacts(s[1..], p);
      assert s[1..][|s| - 1 - |LStrip(s, p)|..] == s[|s| - |LStrip(s, p)|..];
      assert forall k :: 1 <= k < |s| ==> s[k] == s[1..][k - 1];
    }
  }

  /** `s.rstrip(chars)`: drops the longest suffix made only of characters satisfying `p`. */
  function RStrip(s: string, p: char -> bool): (r: string)
    ensures |r| <= |s|
    decreases |s|
  {
    if s != [] && p(s[|s| - 1]) then RStrip(s[..|s| - 1], p) else s
  }

  /** What `RStrip` keeps is a prefix of its input, all it drops satisfies `p`, and what it keeps does not end with such a character. */
  lemma {:induction false} RStripFacts(s: string, p: char -> bool)
    ensures RStrip(s, p) == s[..|RStrip(s, p)|]
    ensures forall k :: |RStrip(s, p)| <= k < |s| ==> p(s[k])
    ensures RStrip(s, p) == [] || !p(RStrip(s, p)[|RStrip(s, p)| - 1])
    decreases |s|
  {
    if s != [] && p(s[|s| - 1]) {
      RStripFacts(s[..|s| - 1], p);
      assert s[..|s| - 1][..|RStrip(s, p)|] == s[..|RStrip(s, p)|];
    }
  }

  /** The facts of `LStrip` fix its result: any cut point meeting them is the one `LStrip` picks. */
  lemma LStripIs(s: string, p: char -> bool, n: nat)
    requires n <= |s|
    requires forall k :: 0 <= k < n ==> p(s[k])
    requires n == |s| || !p(s[n])
    ensures LStrip(s, p) == s[n..]
  {
    LStripFacts(s, p);
  }

  /** The facts of `RStrip` fix its result likewise. */
  lemma RStripIs(s: string, p: char -> bool, n: nat)
    requires n <= |s|
    requires forall k :: n <= k < |s| ==> p(s[k])
    requires n == 0 || !p(s[n - 1])
    ensures RStrip(s, p) == s[..n]
  {
    RStripFacts(s, p);
  }

  /** Both-ends strip of the characters satisfying `p`; `Strip` is its instance for whitespace. */
  function Trim(s: string, p: char -> bool): string {
    RStrip(LStrip(s, p), p)
  }

  /** `s` has no whitespace at either end, as a result of `Strip` has not. */
  predicate Stripped(s: string) {
    s == [] || (!IsSpace(s[0]) && !IsSpace(s[|s| - 1]))
  }

  /** `s.strip()`: drops leading and trailing whitespace. */
  function Strip(s: string): string {
    Trim(s, IsSpace)
  }

  /** `not s.strip()`: the text is empty once stripped. */
  predicate Blank(s: string) {
    Strip(s) == []
  }

  /**
   * `Trim(s, p)` is the slice `s[i..j]` between the runs of `p`-characters at both ends:
   * `i` is the first position whose character fails `p` and `j` one past the last, and a
   * string made only of `p`-characters trims to `""`.
   */
  lemma {:induction false} TrimIs(s: string, p: char -> bool, i: nat, j: nat)
    requires i <= j <= |s|
    requires forall k :: 0 <= k < i ==> p(s[k])
    requires forall k :: j <= k < |s| ==> p(s[k])
    requires i < j ==> !p(s[i]) && !p(s[j - 1])
    requires i == j ==> AllIn(s, p)
    ensures Trim(s, p) == s[i..j]
  {
    if i < j {
      LStripIs(s, p, i);
      var t := s[i..];
      forall k | j - i <= k < |t|
        ensures p(t[k])
      {
        assert t[k] == s[i + k];
      }
      assert t[j - i - 1] == s[j - 1];
      RStripIs(t, p, j - i);
      assert t[..j - i] == s[i..j];
    } else {
      LStripIs(s, p, |s|);
    }
  }

  /** What trimming promises: a slice of its input with no `p`-character at either end, empty exactly when the input is made of them. */
  lemma TrimFacts(s: string, p: char -> bool)
    ensures |Trim(s, p)| <= |s|
    ensures Trim(s, p) == [] || (!p(Trim(s, p)[0]) && !p(Trim(s, p)[|Trim(s, p)| - 1]))
    ensures Trim(s, p) == [] <==> AllIn(s, p)
    ensures forall c :: c in Trim(s, p) ==> c in s
    ensures forall c :: c in s && !p(c) ==> c in Trim(s, p)
  {
    var l := LStrip(s, p);
    var r := RStrip(l, p);
    var i := |s| - |l|;
    LStripFacts(s, p);
    RStripFacts(l, p);
    assert r == s[i..i + |r|];
    forall c | c in s && !p(c)
      ensures c in r
    {
      var k :| 0 <= k < |s| && s[k] == c;
      assert i <= k;
      assert k < i + |r|;
      assert r[k - i] == c;
    }
    if r == [] {
      forall k | 0 <= k < |s|
        ensures p(s[k])
      {
        assert s[k] in s;
      }
    }
  }

  /** `Strip` keeps a slice of its input with no whitespace at either end. */
  lemma StripShape(s: string)
    ensures |Strip(s)| <= |s| && Stripped(Strip(s))
    ensures forall c :: c in Strip(s) ==> c in s
  {
    TrimFacts(s, IsSpace);
  }

  /** A text is blank exactly when every character of it is whitespace; the empty text is blank. */
  lemma BlankIff(s: string)
    ensures Blank(s) <==> AllIn(s, IsSpace)
    ensures Blank([])
  {
    TrimFacts(s, IsSpace);
    TrimFacts([], IsSpace);
  }

  /** A prefix of the input is stripped on its own when what follows it starts with a character failing `p`. */
  lemma {:induction false} LStripConcat(a: string, b: string, p: char -> bool)
    requires b != [] && !p(b[0])
    ensures LStrip(a + b, p) == LStrip(a, p) + b
    decreases |a|
  {
    if a != [] {
      assert (a + b)[0] == a[0];
      if p(a[0]) {
        assert (a + b)[1..] == a[1..] + b;
        LStripConcat(a[1..], b, p);
      }
    }
  }

  /** A suffix of the input is stripped on its own when what precedes it ends with a character failing `p`. */
  lemma {:induction false} RStripConcat(a: string, b: string, p: char -> bool)
    requires a != [] && !p(a[|a| - 1])
    ensures RStrip(a + b, p) == a + RStrip(b, p)
    decreases |b|
  {
    if b != [] {
      assert (a + b)[|a + b| - 1] == b[|b| - 1];
      if p(b[|b| - 1]) {
        assert (a + b)[..|a + b| - 1] == a + b[..|b| - 1];
        RStripConcat(a, b[..|b| - 1], p);
      }
    } else {
      assert a + b == a;
    }
  }

  /** Trimming around a character failing `p` trims the two sides separately. */
  lemma TrimAround(a: string, c: char, b: string, p: char -> bool)
    requires !p(c)
    ensures Trim(a + [c] + b, p) == LStrip(a, p) + [c] + RStrip(b, p)
  {
    assert a + [c] + b == a + ([c] + b);
    LStripConcat(a, [c] + b, p);
    var la := LStrip(a, p);
    assert la + ([c] + b) == (la + [c]) + b;
    RStripConcat(la + [c], b, p);
  }

  /** Trimming is not changed by first removing `p`-characters from the front. */
  lemma TrimOfLStripped(s: string, p: char -> bool)
    ensures Trim(LStrip(s, p), p) == Trim(s, p)
  {
    LStripFacts(s, p);
    LStripIs(LStrip(s, p), p, 0);
  }

  /** Trimming is not changed by first removing `p`-characters from the back. */
  lemma TrimOfRStripped(s: string, p: char -> bool)
    ensures Trim(RStrip(s, p), p) == Trim(s, p)
  {
    LStripFacts(s, p);
    RStripFacts(s, p);
    var i, j := |s| - |LStrip(s, p)|, |RStrip(s, p)|;
    if i < j {
      assert !p(s[i]) by {
        assert LStrip(s, p)[0] == s[i];
      }
      assert !p(s[j - 1]) by {
        assert RStrip(s, p)[j - 1] == s[j - 1];
      }
      TrimIs(s, p, i, j);
      TrimPrefix(s, p, i, j);
    } else {
      assert AllIn(s, p);
      RStripIs(s, p, 0);
      LStripIs(s, p, |s|);
    }
  }

  /** Cutting off a trailing run of `p`-characters leaves the same trimmed slice. */
  lemma TrimPrefix(s: string, p: char -> bool, i: nat, j: nat)
    requires i < j <= |s|
    requires forall k :: 0 <= k < i ==> p(s[k])
    requires !p(s[i]) && !p(s[j - 1])
    ensures Trim(s[..j], p) == s[i..j]
  {
    var sr := s[..j];
    forall k | 0 <= k < i
      ensures p(sr[k])
    {
      assert sr[k] == s[k];
    }
    TrimIs(sr, p, i, j);
    assert sr[i..j] == s[i..j];
  }

  /** `s.replace(from, to)` for single characters. */
  function Replace(s: string, from: char, to: char): string {
    seq(|s|, k requires 0 <= k < |s| => if s[k] == from then to else s[k])
  }

  /** Number of characters of `s` that are in `cs`. */
  function Count(s: string, cs: set<char>): nat {
    if s == [] then 0 else (if s[0] in cs then 1 else 0) + Count(s[1..], cs)
  }

  lemma {:induction false} CountAppend(a: string, b: string, cs: set<char>)
    ensures Count(a + b, cs) == Count(a, cs) + Count(b, cs)
  {
    if a != [] {
      assert (a + b)[0] == a[0];
      assert (a + b)[1..] == a[1..] + b;
      CountAppend(a[1..], b, cs);
    } else {
      assert a + b == b;
    }
  }

  /**
   * `s.split(sep)` generalised to a set of separators: cuts `s` at every
   * character in `seps`. `Split("", seps)` is `[""]`, as in Python.
   */
  function Split(s: string, seps: set<char>): (pieces: seq<string>)
    ensures |pieces| >= 1
    decreases |s|
  {
    var i := Find(s, seps);
    if i == |s| then [s] else [s[..i]] + Split(s[i + 1..], seps)
  }

  /** No piece is longer than the text or holds a separator, and every character of a piece comes from the text. */
  lemma {:induction false} SplitPieces(s: string, seps: set<char>)
    ensures forall p <- Split(s, seps) :: |p| <= |s| && forall c <- p :: c in s && c !in seps
    decreases |s|
  {
    FindFacts(s, seps);
    var i := Find(s, seps);
    if i < |s| {
      SplitPieces(s[i + 1..], seps);
      forall p <- Split(s[i + 1..], seps), c <- p
        ensures c in s
      {
        assert c in s[i + 1..];
      }
      assert Split(s, seps) == [s[..i]] + Split(s[i + 1..], seps);
      forall c <- s[..i]
        ensures c in s && c !in seps
      {
      }
    }
  }

  /** Splitting yields one more piece than there are separators in the input. */
  lemma {:induction false} SplitCount(s: string, seps: set<char>)
    ensures |Split(s, seps)| == 1 + Count(s, seps)
    decreases |s|
  {
    FindFacts(s, seps);
    var i := Find(s, seps);
    assert s == s[..i] + s[i..];
    CountAppend(s[..i], s[i..], seps);
    FindIs(s[..i], seps, i);
    CountNone(s[..i], seps);
    if i < |s| {
      SplitCount(s[i + 1..], seps);
      assert s[i..] == [s[i]] + s[i + 1..];
      CountAppend([s[i]], s[i + 1..], seps);
    }
  }

  lemma {:induction false} CountNone(s: string, cs: set<char>)
    requires forall k :: 0 <= k < |s| ==> s[k] !in cs
    ensures Count(s, cs) == 0
  {
    if s != [] {
      CountNone(s[1..], cs);
    }
  }

  /** A separator splits the text into the pieces of the part before it followed by the pieces of the part after it. */
  lemma {:induction false} SplitAround(a: string, c: char, b: string, seps: set<char>)
    requires c in seps
    ensures Split(a + [c] + b, seps) == Split(a, seps) + Split(b, seps)
    decreases |a|
  {
    var s := a + [c] + b;
    FindFacts(a, seps);
    var i := Find(a, seps);
    if i == |a| {
      FindIs(s, seps, |a|);
      assert s[..|a|] == a && s[|a| + 1..] == b;
    } else {
      FindIs(s, seps, i);
      assert s[..i] == a[..i];
      assert s[i + 1..] == a[i + 1..] + [c] + b;
      SplitAround(a[i + 1..], c, b, seps);
    }
  }

  /** Pieces glued back together with a separator between each two. */
  function Join(pieces: seq<string>, sep: char): string
    decreases |pieces|
  {
    if |pieces| <= 1 then (if pieces == [] then [] else pieces[0])
    else pieces[0] + [sep] + Join(pieces[1..], sep)
  }

  /** Joining a first piece onto at least one more puts the separator between them. */
  lemma JoinCons(p: string, tail: seq<string>, sep: char)
    requires |tail| >= 1
    ensures Join([p] + tail, sep) == p + [sep] + Join(tail, sep)
  {
    assert ([p] + tail)[1..] == tail;
  }

  /** Joining the pieces of a split with the one separator gives the text back. */
  lemma {:induction false} JoinSplit(s: string, sep: char)
    ensures Join(Split(s, {sep}), sep) == s
    decreases |s|
  {
    FindFacts(s, {sep});
    var i := Find(s, {sep});
    if i < |s| {
      var a, b := s[..i], s[i + 1..];
      assert s[i] == sep;
      assert Split(s, {sep}) == [a] + Split(b, {sep});
      JoinSplit(b, sep);
      JoinCons(a, Split(b, {sep}), sep);
      assert s == a + [sep] + b;
    } else {
      assert Split(s, {sep}) == [s];
    }
  }

  /** Splitting pieces that were joined with a separator they do not contain gives the pieces back. */
  lemma {:induction false} SplitJoin(pieces: seq<string>, sep: char, seps: set<char>)
    requires |pieces| >= 1 && sep in seps
    requires forall p <- pieces :: forall k :: 0 <= k < |p| ==> p[k] !in seps
    ensures Split(Join(pieces, sep), seps) == pieces
    decreases |pieces|
  {
    var p, tail := pieces[0], pieces[1..];
    FindIs(p, seps, |p|);
    assert Split(p, seps) == [p];
    if |pieces| > 1 {
      var rest := Join(tail, sep);
      calc {
        Split(Join(pieces, sep), seps);
        { assert Join(pieces, sep) == p + [sep] + rest; }
        Split(p + [sep] + rest, seps);
        { SplitAround(p, sep, rest, seps); }
        Split(p, seps) + Split(rest, seps);
        { SplitJoin(tail, sep, seps); }
        [p] + tail;
        { assert [p] + tail == pieces; }
        pieces;
      }
    } else {
      assert Join(pieces, sep) == p;
    }
  }
}
