/** The curly-brace scanner: what `re.match` with the pattern `(.*?)\{(.+?)\}(.*)`
    returns, written as an explicit scan. In Python's default mode `.` matches every
    character except a newline, and `re.match` anchors the match at the start. */
module Scanner {
  import opened Wrappers

  /** The three groups of a successful match. */
  datatype Match = Match(prefix: string, content: string, rest: string)

  /** The first position at or after `from` that holds `c`. */
  function Find(s: string, c: char, from: nat): (r: Option<nat>)
    ensures r.Some? ==> from <= r.value < |s| && s[r.value] == c
    ensures r.Some? ==> forall k :: from <= k < r.value ==> s[k] != c
    ensures r.None? ==> forall k :: from <= k < |s| ==> s[k] != c
    decreases |s| - from
  {
    if from >= |s| then None
    else if s[from] == c then Some(from)
    else Find(s, c, from + 1)
  }

  /** The length of the first line of `s`: the position of its first newline, or
      `|s|` when there is none. */
  function LineEnd(s: string, from: nat): (e: nat)
    requires from <= |s|
    ensures from <= e <= |s|
    ensures forall k :: from <= k < e ==> s[k] != '\n'
    ensures e == |s| || s[e] == '\n'
  {
    match Find(s, '\n', from)
    case None => |s|
    case Some(n) => n
  }

  /** The regular expression can match with `{` at `p` and `}` at `q`: `(.*?)` covers
      `[0, p)`, `(.+?)` covers the non-empty `[p + 1, q)`, and neither crosses a
      newline. */
  ghost predicate Candidate(text: string, p: int, q: int) {
    0 <= p && p + 2 <= q < |text| && text[p] == '{' && text[q] == '}'
    && forall k :: 0 <= k < q ==> text[k] != '\n'
  }

  /** `_curly_re.match(text)`: the first `{`, if it is on the first line, and the first
      `}` two or more places after it, if that is on the first line too. The groups are
      what lies before, between and after them up to the end of the line; ScanMatches
      shows that this is the leftmost, shortest match of the pattern. */
  function Scan(text: string): (r: Option<Match>)
    ensures r.Some? ==>
              var p := |r.value.prefix|;
              var q := p + 1 + |r.value.content|;
              q < |text| && |r.value.content| > 0
              && text[p] == '{' && text[q] == '}'
              && r.value.prefix == text[..p]
              && r.value.content == text[p + 1..q]
              && q + 1 + |r.value.rest| == LineEnd(text, q + 1)
              && r.value.rest == text[q + 1..LineEnd(text, q + 1)]
  {
    FirstBraces(text)
  }

  /** How Scan reads the match off the text, without its guarantees. */
  function FirstBraces(text: string): Option<Match> {
    var line := LineEnd(text, 0);
    match Find(text, '{', 0)
    case None => None
    case Some(p) =>
      if p >= line then None
      else
        match Find(text, '}', p + 2)
        case None => None
        case Some(q) =>
          if q >= line then None
          else Some(Match(text[..p], text[p + 1..q], text[q + 1..LineEnd(text, q + 1)]))
  }

  /** Scan succeeds exactly when the pattern can match, and then with the leftmost `{`
      and, for it, the nearest `}`: the match the lazy groups of `re.match` pick. */
  lemma ScanMatches(text: string)
    ensures Scan(text).Some? <==> exists p, q :: Candidate(text, p, q)
    ensures Scan(text).Some? ==>
              var p := |Scan(text).value.prefix|;
              var q := p + 1 + |Scan(text).value.content|;
              Candidate(text, p, q)
              && forall p', q' :: Candidate(text, p', q') ==> p < p' || (p == p' && q <= q')
  {
    var line := LineEnd(text, 0);
    match Find(text, '{', 0)
    case None =>
      NoOpenBrace(text);
    case Some(p) =>
      if p >= line {
        NoOpenBrace(text);
      } else {
        match Find(text, '}', p + 2)
        case None =>
          NoCloseBrace(text, p);
        case Some(q) =>
          if q >= line {
            NoCloseBrace(text, p);
          } else {
            LeftmostShortest(text, p, q);
          }
      }
  }

  /** Without a `{` on the first line nothing matches. */
  lemma NoOpenBrace(text: string)
    requires Find(text, '{', 0).None? || Find(text, '{', 0).value >= LineEnd(text, 0)
    ensures forall p, q :: !Candidate(text, p, q)
  {
  }

  /** When the first `{` has no `}` two or more places later on the same line,
      nothing matches: a later `{` would need a later `}`. */
  lemma NoCloseBrace(text: string, p: nat)
    requires Find(text, '{', 0) == Some(p)
    requires Find(text, '}', p + 2).None? || Find(text, '}', p + 2).value >= LineEnd(text, 0)
    ensures forall p', q' :: !Candidate(text, p', q')
  {
  }

  /** The first `{` and the first `}` two or more places after it, both on the first
      line, are the leftmost candidate and, for it, the shortest. */
  lemma LeftmostShortest(text: string, p: nat, q: nat)
    requires Find(text, '{', 0) == Some(p)
    requires Find(text, '}', p + 2) == Some(q)
    requires q < LineEnd(text, 0)
    ensures Candidate(text, p, q)
    ensures forall p', q' :: Candidate(text, p', q') ==> p < p' || (p == p' && q <= q')
  {
  }

  /** On `p + "{" + c + "}" + s1 + s2`, with no `{` in `p`, no `}` in `c` after its first
      character, and no newline before `s2`, the three groups are `p`, `c` and `s1`. */
  lemma ScanSpan(p: string, c: string, s1: string, s2: string)
    requires '{' !in p && '\n' !in p
    requires |c| > 0 && '}' !in c[1..] && '\n' !in c
    requires '\n' !in s1 && (s2 == [] || s2[0] == '\n')
    ensures Scan(p + "{" + c + "}" + s1 + s2) == Some(Match(p, c, s1))
  {
    var text := p + "{" + c + "}" + s1 + s2;
    var q := |p| + 1 + |c|;
    SpanFacts(p, c, s1, s2);
    ScanAt(text, |p|, q, q + 1 + |s1|);
    SpanPieces(p, c, s1, s2);
    Unfolded(text);
  }

  /** Where the braces of such a text are found, and where its first line ends. */
  lemma SpanFacts(p: string, c: string, s1: string, s2: string)
    requires '{' !in p && '\n' !in p
    requires |c| > 0 && '}' !in c[1..] && '\n' !in c
    requires '\n' !in s1 && (s2 == [] || s2[0] == '\n')
    ensures var text := p + "{" + c + "}" + s1 + s2;
            var q := |p| + 1 + |c|;
            Find(text, '{', 0) == Some(|p|) && Find(text, '}', |p| + 2) == Some(q)
            && LineEnd(text, 0) == q + 1 + |s1| && LineEnd(text, q + 1) == q + 1 + |s1|
  {
    var text := p + "{" + c + "}" + s1 + s2;
    SpanFind(p, c, s1 + s2);
    assert p + "{" + c + "}" + (s1 + s2) == text;
    SpanLines(p, c, s1, s2);
  }

  /** Where the braces of such a text are found. */
  lemma SpanFind(p: string, c: string, s: string)
    requires '{' !in p && |c| > 0 && '}' !in c[1..]
    ensures var text := p + "{" + c + "}" + s;
            Find(text, '{', 0) == Some(|p|) && Find(text, '}', |p| + 2) == Some(|p| + 1 + |c|)
  {
    SpanOpen(p, c, s);
    SpanClose(p, c, s);
  }

  lemma SpanOpen(p: string, c: string, s: string)
    requires '{' !in p
    ensures Find(p + "{" + c + "}" + s, '{', 0) == Some(|p|)
  {
    OpenAt(p, "{" + c + "}" + s);
    assert p + ("{" + c + "}" + s) == p + "{" + c + "}" + s;
  }

  lemma SpanClose(p: string, c: string, s: string)
    requires |c| > 0 && '}' !in c[1..]
    ensures Find(p + "{" + c + "}" + s, '}', |p| + 2) == Some(|p| + 1 + |c|)
  {
    CloseAt(p + "{" + c[..1], c[1..], s);
    assert p + "{" + c[..1] + c[1..] == p + "{" + c;
  }

  /** The first line of such a text runs to the end of `s1`. */
  lemma SpanLines(p: string, c: string, s1: string, s2: string)
    requires '\n' !in p && '\n' !in c && '\n' !in s1 && (s2 == [] || s2[0] == '\n')
    ensures var text := p + "{" + c + "}" + s1 + s2;
            var q := |p| + 1 + |c|;
            LineEnd(text, 0) == q + 1 + |s1| && LineEnd(text, q + 1) == q + 1 + |s1|
  {
    var text := p + "{" + c + "}" + s1 + s2;
    SpanLineEnd(p + "{" + c + "}", s1, s2);
    assert '\n' !in p + "{" + c + "}" + s1;
    SpanLineEnd([], p + "{" + c + "}" + s1, s2);
    assert [] + (p + "{" + c + "}" + s1) + s2 == text;
  }

  /** With the first `{` at `p` and the first `}` from `p + 2` on at `q`, both on the
      first line, the match is read off the text. */
  lemma ScanAt(text: string, p: nat, q: nat, e: nat)
    requires Find(text, '{', 0) == Some(p) && Find(text, '}', p + 2) == Some(q)
    requires q < LineEnd(text, 0) && q + 1 <= |text| && LineEnd(text, q + 1) == e
    ensures FirstBraces(text) == Some(Match(text[..p], text[p + 1..q], text[q + 1..e]))
  {
  }

  /** The first `c` from `from` on is at `i` when `s[i]` is `c` and nothing between is. */
  lemma {:induction false} FindAt(s: string, c: char, from: nat, i: nat)
    requires from <= i < |s| && s[i] == c
    requires forall k :: from <= k < i ==> s[k] != c
    ensures Find(s, c, from) == Some(i)
    decreases i - from
  {
    if from < i {
      FindAt(s, c, from + 1, i);
    }
  }

  /** The first `{` of `p + s` is the one that starts `s`, when `p` has none. */
  lemma OpenAt(p: string, s: string)
    requires '{' !in p && |s| > 0 && s[0] == '{'
    ensures Find(p + s, '{', 0) == Some(|p|)
  {
    var text := p + s;
    forall k | 0 <= k < |p|
      ensures text[k] != '{'
    {
      assert text[k] == p[k];
    }
    FindAt(text, '{', 0, |p|);
  }

  /** From the end of `a` on, the first `}` of `a + c + "}" + s` is the one after `c`,
      when `c` has none. */
  lemma CloseAt(a: string, c: string, s: string)
    requires '}' !in c
    ensures Find(a + c + "}" + s, '}', |a|) == Some(|a| + |c|)
  {
    var text := a + c + "}" + s;
    forall k | |a| <= k < |a| + |c|
      ensures text[k] != '}'
    {
      assert text[k] == c[k - |a|];
    }
    FindAt(text, '}', |a|, |a| + |c|);
  }

  /** The line that starts after `a` ends where `s1` does, when `s1` holds no newline
      and `s2` is empty or starts with one. */
  lemma SpanLineEnd(a: string, s1: string, s2: string)
    requires '\n' !in s1 && (s2 == [] || s2[0] == '\n')
    ensures LineEnd(a + s1 + s2, |a|) == |a| + |s1|
  {
    var text := a + s1 + s2;
    forall k | |a| <= k < |a| + |s1|
      ensures text[k] != '\n'
    {
      assert text[k] == s1[k - |a|];
    }
    if s2 != [] {
      assert text[|a| + |s1|] == '\n';
    }
  }

  /** Where the pieces of `p + "{" + c + "}" + s1 + s2` sit. */
  lemma SpanPieces(p: string, c: string, s1: string, s2: string)
    ensures var text := p + "{" + c + "}" + s1 + s2;
            var q := |p| + 1 + |c|;
            text[..|p|] == p && text[|p| + 1..q] == c && text[q + 1..q + 1 + |s1|] == s1
  {
    var text := p + "{" + c + "}" + s1 + s2;
    assert text[..|p|] == p;
    assert text[|p| + 1..|p| + 1 + |c|] == c;
    assert text[|p| + 2 + |c|..|p| + 2 + |c| + |s1|] == s1;
  }

  /** Scan is FirstBraces. */
  lemma Unfolded(text: string)
    ensures Scan(text) == FirstBraces(text)
  {
  }
}
