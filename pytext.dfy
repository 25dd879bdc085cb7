/** The parts of Python's `str` and `os.path` behaviour that the processor relies on:
    `str.isspace`, `str.strip()`, `str.split(sep)`, `str.split()` and `os.path.join`. */
module PyText {

  /** `c.isspace()`: the characters that `str.split()` and `str.strip()` treat as
      whitespace. */
  predicate IsSpace(c: char) {
    var n := c as int;
    (0x09 <= n <= 0x0D) || (0x1C <= n <= 0x20) || n == 0x85 || n == 0xA0 || n == 0x1680
    || (0x2000 <= n <= 0x200A) || n == 0x2028 || n == 0x2029 || n == 0x202F || n == 0x205F
    || n == 0x3000
  }

  predicate NoSpace(s: string) {
    forall k :: 0 <= k < |s| ==> !IsSpace(s[k])
  }

  predicate AllSpace(s: string) {
    forall k :: 0 <= k < |s| ==> IsSpace(s[k])
  }

  // ---------------------------------------------------------------- strip

  /** The number of whitespace characters that start `s`. */
  function LeadingSpaces(s: string): (n: nat)
    ensures n <= |s| && (forall k :: 0 <= k < n ==> IsSpace(s[k]))
    ensures n == |s| || !IsSpace(s[n])
    decreases |s|
  {
    if |s| > 0 && IsSpace(s[0]) then 1 + LeadingSpaces(s[1..]) else 0
  }

  /** The number of whitespace characters that end `s`. */
  function TrailingSpaces(s: string): (n: nat)
    ensures n <= |s| && (forall k :: |s| - n <= k < |s| ==> IsSpace(s[k]))
    ensures n == |s| || !IsSpace(s[|s| - n - 1])
    decreases |s|
  {
    if |s| > 0 && IsSpace(s[|s| - 1]) then 1 + TrailingSpaces(s[..|s| - 1]) else 0
  }

  /** `s.strip()`: the part of `s` between its leading and its trailing whitespace. */
  function Strip(s: string): (r: string)
    ensures var i := LeadingSpaces(s);
            i + |r| <= |s| && r == s[i..i + |r|]
            && forall k :: i + |r| <= k < |s| ==> IsSpace(s[k])
    ensures r == [] || (!IsSpace(r[0]) && !IsSpace(r[|r| - 1]))
  {
    var t := s[LeadingSpaces(s)..];
    t[..|t| - TrailingSpaces(t)]
  }

  /** Whitespace around a stripped string is exactly what `strip` removes. */
  lemma StripSurrounded(a: string, t: string, b: string)
    requires AllSpace(a) && AllSpace(b)
    requires t == [] || (!IsSpace(t[0]) && !IsSpace(t[|t| - 1]))
    ensures Strip(a + t + b) == t
  {
    var s := a + t + b;
    if t == [] {
      LeadingBlank(s);
    } else {
      LeadingBeforeWord(a, t + b);
      assert s == a + (t + b);
      assert s[|a|..] == t + b;
      TrailingAfterWord(t, b);
    }
  }

  lemma {:induction false} LeadingBlank(s: string)
    requires AllSpace(s)
    ensures LeadingSpaces(s) == |s|
    decreases |s|
  {
    if s != [] {
      LeadingBlank(s[1..]);
    }
  }

  lemma {:induction false} LeadingBeforeWord(a: string, u: string)
    requires AllSpace(a)
    requires u != [] && !IsSpace(u[0])
    ensures LeadingSpaces(a + u) == |a|
    decreases |a|
  {
    if a != [] {
      assert (a + u)[1..] == a[1..] + u;
      LeadingBeforeWord(a[1..], u);
    }
  }

  lemma {:induction false} TrailingAfterWord(u: string, b: string)
    requires AllSpace(b)
    requires u != [] && !IsSpace(u[|u| - 1])
    ensures TrailingSpaces(u + b) == |b|
    decreases |b|
  {
    if b != [] {
      assert (u + b)[..|u + b| - 1] == u + b[..|b| - 1];
      TrailingAfterWord(u, b[..|b| - 1]);
    } else {
      assert u + b == u;
    }
  }

  // ---------------------------------------------------------- split(sep)

  /** `sep.join(parts)`. */
  function JoinWith(parts: seq<string>, sep: char): string
    decreases |parts|
  {
    if |parts| == 0 then ""
    else if |parts| == 1 then parts[0]
    else parts[0] + [sep] + JoinWith(parts[1..], sep)
  }

  /** The number of occurrences of `c` in `s`. */
  function Occurrences(s: string, c: char): nat
    decreases |s|
  {
    if |s| == 0 then 0 else (if s[0] == c then 1 else 0) + Occurrences(s[1..], c)
  }

  /** `s.split(sep)` for a one-character separator: the pieces between the
      separators, one more than there are separators; joining them back gives `s`. */
  function Split(s: string, sep: char): (parts: seq<string>)
    ensures |parts| == Occurrences(s, sep) + 1
    ensures forall k :: 0 <= k < |parts| ==> sep !in parts[k]
    ensures JoinWith(parts, sep) == s
    decreases |s|
  {
    if |s| == 0 then [""]
    else
      var tail := Split(s[1..], sep);
      if s[0] == sep then
        assert s == [sep] + s[1..];
        [""] + tail
      else
        var parts := [[s[0]] + tail[0]] + tail[1..];
        assert JoinWith(parts, sep) == s by {
          if |tail| > 1 {
            assert JoinWith(tail, sep) == tail[0] + [sep] + JoinWith(tail[1..], sep);
            assert parts[1..] == tail[1..];
          }
        }
        parts
  }

  /** Splitting at one separator splits the two sides independently. */
  lemma {:induction false} SplitAround(x: string, y: string, sep: char)
    ensures Split(x + [sep] + y, sep) == Split(x, sep) + Split(y, sep)
    decreases |x|
  {
    var s := x + [sep] + y;
    if x == [] {
      assert s == [sep] + y;
      assert s[1..] == y;
    } else {
      assert s[1..] == x[1..] + [sep] + y;
      SplitAround(x[1..], y, sep);
    }
  }

  /** A string without the separator is one piece. */
  lemma SplitWithoutSeparator(x: string, sep: char)
    requires sep !in x
    ensures Split(x, sep) == [x]
  {
    NoOccurrences(x, sep);
  }

  lemma {:induction false} NoOccurrences(x: string, sep: char)
    requires sep !in x
    ensures Occurrences(x, sep) == 0
    decreases |x|
  {
    if x != [] {
      NoOccurrences(x[1..], sep);
    }
  }

  /** The piece after the last separator: `s.split(sep)[-1]`. */
  lemma LastPiece(x: string, b: string, sep: char)
    requires sep !in b
    ensures var parts := Split(x + [sep] + b, sep); parts[|parts| - 1] == b
  {
    SplitAround(x, b, sep);
    SplitWithoutSeparator(b, sep);
  }

  /** The piece before the first separator: `s.split(sep)[0]`. */
  lemma FirstPiece(a: string, y: string, sep: char)
    requires sep !in a
    ensures Split(a + [sep] + y, sep)[0] == a
  {
    SplitAround(a, y, sep);
    SplitWithoutSeparator(a, sep);
  }

  // -------------------------------------------------------------- split()

  /** The length of the run of non-whitespace characters that starts `s`. */
  function LeadingRun(s: string): (n: nat)
    ensures n <= |s| && (forall k :: 0 <= k < n ==> !IsSpace(s[k]))
    ensures n == |s| || IsSpace(s[n])
    decreases |s|
  {
    if |s| == 0 || IsSpace(s[0]) then 0 else 1 + LeadingRun(s[1..])
  }

  /** `s` with every whitespace character removed. */
  function NonSpace(s: string): string
    decreases |s|
  {
    if |s| == 0 then "" else (if IsSpace(s[0]) then "" else [s[0]]) + NonSpace(s[1..])
  }

  function Concat(words: seq<string>): string
    decreases |words|
  {
    if |words| == 0 then "" else words[0] + Concat(words[1..])
  }

  /** `s.split()`: the maximal runs of non-whitespace characters of `s`, in order;
      together they hold exactly the non-whitespace characters of `s`. */
  function Words(s: string): (words: seq<string>)
    ensures forall k :: 0 <= k < |words| ==> |words[k]| > 0 && NoSpace(words[k])
    ensures Concat(words) == NonSpace(s)
    decreases |s|
  {
    if |s| == 0 then []
    else if IsSpace(s[0]) then
      assert NonSpace(s) == NonSpace(s[1..]);
      Words(s[1..])
    else
      var n := LeadingRun(s);
      var rest := Words(s[n..]);
      NonSpaceAppend(s[..n], s[n..]);
      NonSpaceOfWord(s[..n]);
      assert s[..n] + s[n..] == s;
      [s[..n]] + rest
  }

  lemma {:induction false} NonSpaceAppend(a: string, b: string)
    ensures NonSpace(a + b) == NonSpace(a) + NonSpace(b)
    decreases |a|
  {
    if a != [] {
      assert (a + b)[1..] == a[1..] + b;
      NonSpaceAppend(a[1..], b);
    } else {
      assert a + b == b;
    }
  }

  lemma {:induction false} NonSpaceOfWord(w: string)
    requires NoSpace(w)
    ensures NonSpace(w) == w
    decreases |w|
  {
    if w != [] {
      NonSpaceOfWord(w[1..]);
    }
  }

  /** A string that is all whitespace has no words. */
  lemma {:induction false} WordsOfBlank(s: string)
    requires AllSpace(s)
    ensures Words(s) == []
    decreases |s|
  {
    if s != [] {
      WordsOfBlank(s[1..]);
    }
  }

  /** A non-empty string without whitespace is a single word. */
  lemma WordsOfWord(w: string)
    requires |w| > 0 && NoSpace(w)
    ensures Words(w) == [w]
  {
    var n := LeadingRun(w);
    assert n == |w|;
    assert w[..n] == w;
    assert w[n..] == [];
  }

  /** A whitespace character separates the words before it from those after it. */
  lemma {:induction false} WordsAroundSpace(a: string, c: char, b: string)
    requires IsSpace(c)
    ensures Words(a + [c] + b) == Words(a) + Words(b)
    decreases |a|
  {
    var s := a + [c] + b;
    if a == [] {
      assert s[1..] == b;
    } else if IsSpace(a[0]) {
      assert s[1..] == a[1..] + [c] + b;
      WordsAroundSpace(a[1..], c, b);
    } else {
      var n := LeadingRun(a);
      LeadingRunBeforeSpace(a, c, b);
      assert s[..n] == a[..n];
      assert s[n..] == a[n..] + [c] + b;
      WordsAroundSpace(a[n..], c, b);
    }
  }

  lemma {:induction false} LeadingRunBeforeSpace(a: string, c: char, b: string)
    requires IsSpace(c)
    ensures LeadingRun(a + [c] + b) == LeadingRun(a)
    decreases |a|
  {
    if a != [] && !IsSpace(a[0]) {
      assert (a + [c] + b)[1..] == a[1..] + [c] + b;
      LeadingRunBeforeSpace(a[1..], c, b);
    }
  }

  // ------------------------------------------------------- os.path.join

  /** `os.path.join(a, b)` on POSIX: an absolute `b` replaces `a`; otherwise a "/" is
      put between them unless `a` is empty or already ends in one. */
  function JoinPath(a: string, b: string): (r: string)
    ensures |r| >= |b| && r[|r| - |b|..] == b
    ensures |r| == |b| || r[|r| - |b| - 1] == '/'
    ensures (|b| == 0 || b[0] != '/') ==> |r| >= |a| && r[..|a|] == a
    ensures |b| > 0 && b[0] == '/' ==> r == b
    ensures (|b| == 0 || b[0] != '/') ==> |a| + |b| <= |r| <= |a| + 1 + |b|
    ensures (|b| == 0 || b[0] != '/') ==> (|r| == |a| + |b| <==> |a| == 0 || a[|a| - 1] == '/')
  {
    if |b| > 0 && b[0] == '/' then b
    else if |a| == 0 || a[|a| - 1] == '/' then a + b
    else a + "/" + b
  }

  /** The last "/"-separated piece of a joined path is the joined component, when
      that component holds no "/". */
  lemma LastPathPiece(a: string, b: string)
    requires '/' !in b
    ensures var parts := Split(JoinPath(a, b), '/'); parts[|parts| - 1] == b
  {
    var r := JoinPath(a, b);
    if |r| == |b| {
      assert r == b;
      SplitWithoutSeparator(b, '/');
    } else {
      var x := r[..|r| - |b| - 1];
      assert r == x + ['/'] + b;
      LastPiece(x, b, '/');
    }
  }
}
