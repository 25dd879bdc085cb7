/** Worked inputs for `text_to_sequence`, under any cleaner that leaves text unchanged. */
module Samples {
  import opened Wrappers
  import opened Vocabulary
  import PyText
  import Cleaning
  import Encoding
  import Scanner
  import Tokenizer

  /** A cleaner that leaves every text as it is. */
  ghost predicate Unchanging(cleaner: string, registry: Cleaning.Registry) {
    cleaner in registry && forall s :: registry[cleaner](s) == s
  }

  /** Tokenizer.Plain with the unchanged cleaner. */
  lemma Plainly(text: string, ids: seq<nat>, cleaner: string, registry: Cleaning.Registry)
    requires Unchanging(cleaner, registry)
    requires |text| > 0
    requires forall p, q :: !Scanner.Candidate(text, p, q)
    requires Encoding.CharIds(text) == ids
    ensures Tokenizer.Tokenize(text, cleaner, registry) == Ok(ids)
  {
    Tokenizer.Plain(text, cleaner, registry);
    assert registry[cleaner](text) == text;
    Encoding.CharsByCharId(text);
  }

  /** Plain characters map to their own IDs and a span to the ID of its code. */
  lemma Greeting(cleaner: string, registry: Cleaning.Registry)
    requires Unchanging(cleaner, registry)
    ensures Tokenizer.Tokenize("Hi, {AY1}", cleaner, registry) == Ok([19, 46, 6, 11, 86])
  {
    HiIds();
    CodeAY1();
    GreetingPieces();
    OneSpan("Hi, ", "AY1", [19, 46, 6, 11], [86], cleaner, registry);
  }

  lemma GreetingPieces()
    ensures "Hi, " + "{" + "AY1" + "}" == "Hi, {AY1}"
    ensures '{' !in "Hi, " && '\n' !in "Hi, " && '}' !in "AY1"[1..] && '\n' !in "AY1"
    ensures [19, 46, 6, 11] + [86] == [19, 46, 6, 11, 86]
  {
    assert "AY1"[1..] == "Y1";
    var ids: seq<nat>, codes: seq<nat> := [19, 46, 6, 11], [86];
    assert ids + codes == [19, 46, 6, 11, 86];
  }

  /** Text, then one span closing the line: the text's IDs, then the span's codes. */
  lemma OneSpan(p: string, c: string, ids: seq<nat>, codes: seq<nat>,
                cleaner: string, registry: Cleaning.Registry)
    requires Unchanging(cleaner, registry)
    requires '{' !in p && '\n' !in p
    requires |c| > 0 && '}' !in c[1..] && '\n' !in c
    requires Encoding.CharsToSequence(p) == ids && Encoding.ArpabetToSequence(c) == codes
    ensures Tokenizer.Tokenize(p + "{" + c + "}", cleaner, registry) == Ok(ids + codes)
  {
    Tokenizer.Span(p, c, "", "", cleaner, registry);
    assert p + "{" + c + "}" + "" + "" == p + "{" + c + "}";
    assert registry[cleaner](p) == p;
    assert Tokenizer.Tokenize("", cleaner, registry) == Ok([]);
    assert ids + codes + [] == ids + codes;
  }

  lemma HiIds()
    ensures Encoding.CharsToSequence("Hi, ") == [19, 46, 6, 11]
  {
    Encoding.CharsByCharId("Hi, ");
    HiCharIds();
  }

  lemma HiCharIds()
    ensures Encoding.CharIds("Hi, ") == [19, 46, 6, 11]
  {
    assert CharId('H') == Some(19) && CharId('i') == Some(46);
    assert CharId(',') == Some(6) && CharId(' ') == Some(11);
  }

  /** The span `{AY1}` yields the ID of "@AY1" and nothing else. */
  lemma CodeAY1()
    ensures Encoding.ArpabetToSequence("AY1") == [86]
  {
    assert ValidSymbols[22] == "AY1";
    Encoding.ArpabetCode(22);
  }

  /** In `a {} b {AY1}` the span runs on to the `}` after "AY1"; its words "}", "b"
      and "{AY1" are not codes, so the whole span yields nothing. */
  lemma NoCodesInside()
    ensures Encoding.ArpabetToSequence("} b {AY1") == []
  {
    WordsInside();
    NothingKept();
  }

  /** None of "@}", "@b" and "@{AY1" is in the table. */
  lemma NothingKept()
    ensures Encoding.SymbolsToSequence(Marked(["}", "b", "{AY1"])) == []
  {
    Encoding.NotACode("}");
    Encoding.NotACode("b");
    Encoding.NotACode("{AY1");
    NoneKept(["}", "b", "{AY1"]);
  }

  lemma NoneKept(words: seq<string>)
    requires |words| == 3
    requires forall k :: 0 <= k < 3 ==> !Encoding.ShouldKeep("@" + words[k])
    ensures Encoding.SymbolsToSequence(Marked(words)) == []
  {
    var marked := Marked(words);
    assert marked[0] == "@" + words[0] && marked[1] == "@" + words[1] && marked[2] == "@" + words[2];
    assert Encoding.SymbolsToSequence(marked[2..]) == [] by {
      assert marked[2..][1..] == [];
    }
    assert Encoding.SymbolsToSequence(marked[1..]) == [] by {
      assert marked[1..][1..] == marked[2..];
    }
  }

  lemma WordsInside()
    ensures PyText.Words("} b {AY1") == ["}", "b", "{AY1"]
  {
    ThreeWords("}", "b", "{AY1");
    assert "}" + [' '] + "b" + [' '] + "{AY1" == "} b {AY1";
  }

  lemma ThreeWords(a: string, b: string, c: string)
    requires |a| > 0 && |b| > 0 && |c| > 0
    requires PyText.NoSpace(a) && PyText.NoSpace(b) && PyText.NoSpace(c)
    ensures PyText.Words(a + [' '] + b + [' '] + c) == [a, b, c]
  {
    assert PyText.IsSpace(' ');
    assert a + [' '] + b + [' '] + c == a + [' '] + (b + [' '] + c);
    PyText.WordsAroundSpace(a, ' ', b + [' '] + c);
    PyText.WordsAroundSpace(b, ' ', c);
    PyText.WordsOfWord(a);
    PyText.WordsOfWord(b);
    PyText.WordsOfWord(c);
  }

  /** An opening brace that is never closed is plain text, and drops out. */
  lemma Unclosed(cleaner: string, registry: Cleaning.Registry)
    requires Unchanging(cleaner, registry)
    ensures Tokenizer.Tokenize("a {bad", cleaner, registry) == Ok([38, 11, 39, 38, 41])
  {
    UnclosedCharIds();
    Plainly("a {bad", [38, 11, 39, 38, 41], cleaner, registry);
  }

  lemma UnclosedCharIds()
    ensures Encoding.CharIds("a {bad") == [38, 11, 39, 38, 41]
  {
    assert CharId('a') == Some(38) && CharId(' ') == Some(11) && CharId('{') == None;
    assert CharId('b') == Some(39) && CharId('d') == Some(41);
  }

  /** `{}` holds no code, so no span starts there: the braces are plain text and
      drop out. */
  lemma BareBraces(cleaner: string, registry: Cleaning.Registry)
    requires Unchanging(cleaner, registry)
    ensures Tokenizer.Tokenize("x {} y", cleaner, registry) == Ok([61, 11, 11, 62])
  {
    NoSpanIn("x {} y");
    BareBracesCharIds();
    Plainly("x {} y", [61, 11, 11, 62], cleaner, registry);
  }

  lemma NoSpanIn(text: string)
    requires text == "x {} y"
    ensures forall p, q :: !Scanner.Candidate(text, p, q)
  {
  }

  lemma BareBracesCharIds()
    ensures Encoding.CharIds("x {} y") == [61, 11, 11, 62]
  {
    assert CharId('x') == Some(61) && CharId(' ') == Some(11) && CharId('y') == Some(62);
    assert CharId('{') == None && CharId('}') == None;
  }
}
