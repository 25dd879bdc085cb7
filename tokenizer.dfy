/** `LJSpeechProcessor.text_to_sequence`: plain text is cleaned and mapped character by
    character, and each `{...}` span on the first line is read as ARPAbet codes. */
module Tokenizer {
  import opened Wrappers
  import opened Vocabulary
  import Scanner
  import Cleaning
  import Encoding

  /** `_symbols_to_sequence(_clean_text(text, [cleaner]))`. */
  function CleanedIds(text: string, cleaner: string, registry: Cleaning.Registry): (r: Result<seq<nat>>)
    ensures r.Err? <==> cleaner !in registry
    ensures r.Err? ==> r.error == UnknownCleaner(cleaner)
    ensures r.Ok? ==> r.value == Encoding.CharsToSequence(registry[cleaner](text))
  {
    Cleaning.CleanedOne(text, cleaner, registry);
    var cleaned :- Cleaning.Cleaned(text, [cleaner], registry);
    Ok(Encoding.CharsToSequence(cleaned))
  }

  /** `ids` in front of a result that may be an error. */
  function Then(ids: seq<nat>, rest: Result<seq<nat>>): (r: Result<seq<nat>>)
    ensures r.Err? <==> rest.Err?
    ensures r.Err? ==> r.error == rest.error
    ensures r.Ok? ==> r.value == ids + rest.value
  {
    match rest
    case Ok(tail) => Ok(ids + tail)
    case Err(e) => Err(e)
  }

  /** What `text_to_sequence(text)` returns, or the error it raises: the cleaned
      prefix of the first match, then the ARPAbet codes between its braces, then the
      same for the rest of the match's line; text without a match is cleaned and
      mapped whole. The cleaner is looked up once per pass, so only an empty text
      escapes an unknown name. */
  function Tokenize(text: string, cleaner: string, registry: Cleaning.Registry): (r: Result<seq<nat>>)
    ensures r.Err? <==> |text| > 0 && cleaner !in registry
    ensures r.Err? ==> r.error == UnknownCleaner(cleaner)
    decreases |text|
  {
    if |text| == 0 then Ok([])
    else
      match Scanner.Scan(text)
      case None => CleanedIds(text, cleaner, registry)
      case Some(m) =>
        var head :- CleanedIds(m.prefix, cleaner, registry);
        Then(head + Encoding.ArpabetToSequence(m.content), Tokenize(m.rest, cleaner, registry))
  }

  /** IDs strictly between the pad and the end mark: the IDs `_symbols_to_sequence`
      can emit. */
  predicate Emittable(ids: seq<nat>) {
    forall k :: 0 <= k < |ids| ==> PadId < ids[k] < EosId
  }

  /** Every ID `text_to_sequence` returns lies strictly between the pad and the end
      mark: plain text yields character IDs, spans yield ARPAbet IDs. */
  lemma {:induction false} TokenizeInRange(text: string, cleaner: string, registry: Cleaning.Registry)
    ensures Tokenize(text, cleaner, registry).Ok? ==> Emittable(Tokenize(text, cleaner, registry).value)
    decreases |text|
  {
    if |text| > 0 && cleaner in registry {
      match Scanner.Scan(text)
      case None =>
        CleanedInRange(text, cleaner, registry);
      case Some(m) =>
        TokenizeInRange(m.rest, cleaner, registry);
        SpanInRange(m.prefix, m.content, cleaner, registry);
        ThenInRange(CleanedIds(m.prefix, cleaner, registry).value + Encoding.ArpabetToSequence(m.content),
                    Tokenize(m.rest, cleaner, registry));
    }
  }

  lemma CleanedInRange(text: string, cleaner: string, registry: Cleaning.Registry)
    requires cleaner in registry
    ensures Emittable(CleanedIds(text, cleaner, registry).value)
  {
  }

  lemma SpanInRange(prefix: string, content: string, cleaner: string, registry: Cleaning.Registry)
    requires cleaner in registry
    ensures Emittable(CleanedIds(prefix, cleaner, registry).value + Encoding.ArpabetToSequence(content))
  {
  }

  /** Emittable IDs in front of a result whose IDs are emittable too. */
  lemma ThenInRange(ids: seq<nat>, rest: Result<seq<nat>>)
    requires Emittable(ids)
    requires rest.Ok? ==> Emittable(rest.value)
    ensures Then(ids, rest).Ok? ==> Emittable(Then(ids, rest).value)
  {
  }

  /** `text_to_sequence`: the `while len(text)` loop, which appends to `sequence` and
      rebinds `text` to the third group of each match. */
  method TextToSequence(text: string, cleaner: string, registry: Cleaning.Registry) returns (r: Result<seq<nat>>)
    ensures r == Tokenize(text, cleaner, registry)
  {
    var sequence: seq<nat> := [];
    var remaining := text;
    ThenEmpty(Tokenize(text, cleaner, registry));
    while |remaining| > 0
      invariant Tokenize(text, cleaner, registry) == Then(sequence, Tokenize(remaining, cleaner, registry))
      decreases |remaining|
    {
      var m := Scanner.Scan(remaining);
      if m.None? {
        var cleaned := Cleaning.CleanText(remaining, [cleaner], registry);
        Cleaning.CleanedOne(remaining, cleaner, registry);
        assert Tokenize(remaining, cleaner, registry) == CleanedIds(remaining, cleaner, registry);
        if cleaned.Err? {
          return Err(cleaned.error);
        }
        sequence := sequence + Encoding.CharsToSequence(cleaned.value);
        assert Tokenize(text, cleaner, registry) == Ok(sequence);
        return Ok(sequence);
      }
      var prefix := Cleaning.CleanText(m.value.prefix, [cleaner], registry);
      Cleaning.CleanedOne(m.value.prefix, cleaner, registry);
      if prefix.Err? {
        return Err(prefix.error);
      }
      assert Tokenize(remaining, cleaner, registry)
          == Then(Encoding.CharsToSequence(prefix.value) + Encoding.ArpabetToSequence(m.value.content),
                  Tokenize(m.value.rest, cleaner, registry));
      var ids := Encoding.CharsToSequence(prefix.value) + Encoding.ArpabetToSequence(m.value.content);
      ThenThen(sequence, ids, Tokenize(m.value.rest, cleaner, registry));
      sequence := sequence + ids;
      remaining := m.value.rest;
    }
    assert Tokenize(remaining, cleaner, registry) == Ok([]);
    assert sequence + [] == sequence;
    return Ok(sequence);
  }

  lemma ThenEmpty(rest: Result<seq<nat>>)
    ensures Then([], rest) == rest
  {
    if rest.Ok? {
      assert [] + rest.value == rest.value;
    }
  }

  lemma ThenThen(a: seq<nat>, b: seq<nat>, rest: Result<seq<nat>>)
    ensures Then(a, Then(b, rest)) == Then(a + b, rest)
  {
    if rest.Ok? {
      assert a + (b + rest.value) == (a + b) + rest.value;
    }
  }

  /** Text without a match on its first line, such as text with no `{` or no `}`,
      is cleaned and mapped whole; braces that survive cleaning are not in the
      table and drop out. */
  lemma Plain(text: string, cleaner: string, registry: Cleaning.Registry)
    requires |text| > 0 && cleaner in registry
    requires forall p, q :: !Scanner.Candidate(text, p, q)
    ensures Tokenize(text, cleaner, registry) == Ok(Encoding.CharsToSequence(registry[cleaner](text)))
  {
    Scanner.ScanMatches(text);
  }

  /** A text holding a `{` without a `}`, or a `}` without a `{`, never matches. */
  lemma Unmatched(text: string, cleaner: string, registry: Cleaning.Registry)
    requires |text| > 0 && cleaner in registry
    requires '{' !in text || '}' !in text
    ensures Tokenize(text, cleaner, registry) == Ok(Encoding.CharsToSequence(registry[cleaner](text)))
  {
    Plain(text, cleaner, registry);
  }

  /** One span: the cleaned text before the first `{`, then the codes up to the first
      `}` that closes a non-empty span, read as ARPAbet without cleaning, then the
      rest of the line; whatever follows the line's newline is dropped. */
  lemma Span(p: string, c: string, s1: string, s2: string, cleaner: string, registry: Cleaning.Registry)
    requires '{' !in p && '\n' !in p
    requires |c| > 0 && '}' !in c[1..] && '\n' !in c
    requires '\n' !in s1 && (s2 == [] || s2[0] == '\n')
    requires cleaner in registry
    ensures Tokenize(p + "{" + c + "}" + s1 + s2, cleaner, registry)
            == Then(Encoding.CharsToSequence(registry[cleaner](p)) + Encoding.ArpabetToSequence(c),
                    Tokenize(s1, cleaner, registry))
  {
    Scanner.ScanSpan(p, c, s1, s2);
  }

  /** `{}` does not close a span: the span runs on to the next `}`, and the closing
      brace of the empty pair becomes the first character of its content. */
  lemma EmptyBraces(p: string, m: string, s1: string, s2: string, cleaner: string, registry: Cleaning.Registry)
    requires '{' !in p && '\n' !in p
    requires '}' !in m && '\n' !in m
    requires '\n' !in s1 && (s2 == [] || s2[0] == '\n')
    requires cleaner in registry
    ensures Tokenize(p + "{}" + m + "}" + s1 + s2, cleaner, registry)
            == Then(Encoding.CharsToSequence(registry[cleaner](p)) + Encoding.ArpabetToSequence("}" + m),
                    Tokenize(s1, cleaner, registry))
  {
    assert ("}" + m)[1..] == m;
    assert p + "{}" + m + "}" + s1 + s2 == p + "{" + ("}" + m) + "}" + s1 + s2;
    Span(p, "}" + m, s1, s2, cleaner, registry);
  }

  /** Once a span has matched, the lines after the one it sits on are never read. */
  lemma RestOfLine(p: string, c: string, s: string, t: string, cleaner: string, registry: Cleaning.Registry)
    requires '{' !in p && '\n' !in p
    requires |c| > 0 && '}' !in c[1..] && '\n' !in c
    requires '\n' !in s
    requires cleaner in registry
    ensures Tokenize(p + "{" + c + "}" + s + "\n" + t, cleaner, registry)
            == Tokenize(p + "{" + c + "}" + s, cleaner, registry)
  {
    Span(p, c, s, "\n" + t, cleaner, registry);
    assert p + "{" + c + "}" + s + ("\n" + t) == p + "{" + c + "}" + s + "\n" + t;
    Span(p, c, s, "", cleaner, registry);
    assert p + "{" + c + "}" + s + "" == p + "{" + c + "}" + s;
  }
}
