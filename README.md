# LJSpeech text processor, modelled in Dafny

This project models how the LJSpeech processor of TensorFlowTTS
(`tensorflow_tts/processor/ljspeech.py`) turns a transcription into a sequence of
symbol IDs, and how it reads the LJSpeech manifest (`metadata.csv`) into items and
builds one training sample from an item.

The modelled parts are:

- **The symbol table** (`Vocabulary`). It has 149 entries, in this order: the pad
  `_` (ID 0), the special `-` (1), ten punctuation marks (2–11), 52 letters (12–63),
  the 84 ARPAbet codes with an `@` in front (64–147) and the end mark `~` (148).
  `_symbol_to_id` and `_id_to_symbol` are maps that are proved to invert each other.
- **The curly-brace pattern** `(.*?)\{(.+?)\}(.*)` (`Scanner`). It is written as an
  explicit scan with Python's `re.match` semantics: `.` matches anything except a
  newline, and the lazy groups take the leftmost and shortest match.
- **The cleaners** (`Cleaning`). `_clean_text` is a loop over a registry of named
  cleaners. A name missing from the registry is an error.
- **Symbol-to-ID conversion** (`Encoding`). This covers `_should_keep_symbol`,
  `_symbols_to_sequence` and `_arpabet_to_sequence`.
- **`text_to_sequence`** (`Tokenizer`). It is specified by a recursive function,
  `Tokenize`, and implemented by the `while` loop method `TextToSequence`, which is
  proved equal to it.
- **The Python string and path operations the processor relies on** (`PyText`):
  `str.strip`, `str.split(sep)`, `str.split()` and `os.path.join`.
- **`__init__` and `get_one_sample`** (`Processor`). The manifest's lines are given
  as a parameter, and the audio is left out.

## Model

| member | source | states |
|---|---|---|
| Vocabulary.Layout | tensorflow_tts/processor/ljspeech.py:149-162 | The table has 149 entries: pad at 0, `-` at 1, the punctuation at 2–11, the letters at 12–63, `@`+code at 64–147 for the 84 codes, and `~` at 148 |
| Vocabulary.CharacterCodes | tensorflow_tts/processor/ljspeech.py:151-153 | The letters are `A`–`Z` then `a`–`z`, and the punctuation characters are, in order, `!` `'` `(` `)` `,` `.` `:` `;` `?` and the space, so `?` has ID 10 and the space ID 11 |
| Vocabulary.CharIdInverts | tensorflow_tts/processor/ljspeech.py:159-161 | A per-character reference lookup agrees with the table in both directions for every one-character entry |
| Vocabulary.LetterLocated | tensorflow_tts/processor/ljspeech.py:153-161 | Every ASCII letter has an ID in 12–63, and the letter at that offset is the letter itself |
| Vocabulary.ValidSymbolsSorted | tensorflow_tts/processor/ljspeech.py:13-98 | The ARPAbet code list is strictly increasing, so no code occurs twice |
| Vocabulary.CodesShaped | tensorflow_tts/processor/ljspeech.py:13-98 | Every code is 1–3 capital letters or stress digits 0–2 |
| Vocabulary.SymbolsDistinct | tensorflow_tts/processor/ljspeech.py:149-161 | No two positions of `symbols` hold the same string, so the dictionary comprehension loses nothing |
| Vocabulary.SymbolToId | tensorflow_tts/processor/ljspeech.py:164 | Every symbol maps to its own position, and every key maps to a position that holds it |
| Vocabulary.IdToSymbol | tensorflow_tts/processor/ljspeech.py:165 | The keys are exactly 0..148, and the map is the inverse of SymbolToId in both directions |
| Scanner.Scan | tensorflow_tts/processor/ljspeech.py:168 | On a match: a `{` sits right after the prefix and a `}` right after the content, the content is non-empty, prefix, content and rest are the slices around the braces, and the rest ends at the line's end |
| Scanner.ScanMatches | tensorflow_tts/processor/ljspeech.py:168 | A match exists iff some `{` and `}` on the first line enclose at least one character; the match found is the leftmost `{` with the nearest such `}` |
| Scanner.ScanSpan | tensorflow_tts/processor/ljspeech.py:168 | For text `p{c}s1` followed by a newline or nothing, where `p` has no `{` and `c` has no later `}`, the groups are exactly `p`, `c`, `s1` |
| Cleaning.Cleaned | tensorflow_tts/processor/ljspeech.py:231-237 | Fails iff some name is not a cleaner, and then with the first such name; an empty list returns the text unchanged |
| Cleaning.CleanText | tensorflow_tts/processor/ljspeech.py:231-237 | The `for` loop returns exactly Cleaned |
| Cleaning.CleanedAppend | tensorflow_tts/processor/ljspeech.py:232-236 | Cleaning with `a + b` is cleaning with `a` and then with `b`; an error in `a` stops it |
| Cleaning.CleanedOne | tensorflow_tts/processor/ljspeech.py:232-236 | One name applies its cleaner once, or fails with Unknown cleaner |
| Encoding.ShouldKeep | tensorflow_tts/processor/ljspeech.py:248-249 | A symbol is kept iff it is in the table and its ID lies strictly between the pad and the end mark |
| Encoding.SymbolsToSequence | tensorflow_tts/processor/ljspeech.py:240-241 | At most one ID per symbol, every ID in 1–147 |
| Encoding.DecodeSymbolsToSequence | tensorflow_tts/processor/ljspeech.py:240-241 | Reading the IDs back through `_id_to_symbol` gives exactly the kept symbols, in order |
| Encoding.SymbolsToSequenceAppend | tensorflow_tts/processor/ljspeech.py:240-241 | The IDs of a concatenation are the concatenation of the IDs |
| Encoding.Dropped | tensorflow_tts/processor/ljspeech.py:240-249 | A symbol that is not kept leaves no ID, no gap and no error |
| Encoding.CharsToSequence | tensorflow_tts/processor/ljspeech.py:240-241 | The IDs of a string of characters lie in 1–63 and never reach the ARPAbet range |
| Encoding.CharsByCharId | tensorflow_tts/processor/ljspeech.py:240-241 | Mapping characters through the table equals the per-character reference lookup |
| Encoding.OneChar | tensorflow_tts/processor/ljspeech.py:248-249 | A character is kept iff the reference lookup finds it strictly between pad and end mark, and its ID is that one |
| Encoding.ArpabetToSequence | tensorflow_tts/processor/ljspeech.py:244-245 | The IDs of a braced span lie in 64–147 |
| Encoding.BlankArpabet | tensorflow_tts/processor/ljspeech.py:244-245 | An all-whitespace span yields no IDs |
| Encoding.ArpabetCode | tensorflow_tts/processor/ljspeech.py:244-245 | Each code on its own yields exactly `[64 + k]` for its index `k` |
| Encoding.ArpabetAroundSpace | tensorflow_tts/processor/ljspeech.py:244-245 | A whitespace character splits a span: the IDs of `a c b` are the IDs of `a` followed by the IDs of `b` |
| Encoding.ArpabetCodes | tensorflow_tts/processor/ljspeech.py:244-245 | A span of codes separated by single spaces yields exactly one ID per code, `64 + k` for code `k`, in the span's order |
| Encoding.NotACode | tensorflow_tts/processor/ljspeech.py:244-249 | A word that starts after `Z` (lower case, `{`, `}`) is never a code and is dropped |
| Tokenizer.CleanedIds | tensorflow_tts/processor/ljspeech.py:220-225 | Fails iff the cleaner is unknown; otherwise the character IDs of the cleaned text |
| Tokenizer.Tokenize | tensorflow_tts/processor/ljspeech.py:211-228 | Fails iff the text is non-empty and the cleaner is unknown, and then with that cleaner's name |
| Tokenizer.TokenizeInRange | tensorflow_tts/processor/ljspeech.py:211-228 | Every ID returned lies strictly between the pad (0) and the end mark (148) |
| Tokenizer.TextToSequence | tensorflow_tts/processor/ljspeech.py:211-228 | The `while len(text)` loop terminates and returns exactly Tokenize |
| Tokenizer.Plain | tensorflow_tts/processor/ljspeech.py:217-222 | With no match, the whole text is cleaned and mapped character by character |
| Tokenizer.Unmatched | tensorflow_tts/processor/ljspeech.py:217-222 | A text lacking `{` or lacking `}` is cleaned and mapped whole |
| Tokenizer.Span | tensorflow_tts/processor/ljspeech.py:216-227 | One pass: cleaned prefix IDs, then the span's ARPAbet IDs (not cleaned), then the IDs of the rest of the line |
| Tokenizer.EmptyBraces | tensorflow_tts/processor/ljspeech.py:168 | `{}` does not close a span; the span runs on to the next `}` and starts with `}` |
| Tokenizer.RestOfLine | tensorflow_tts/processor/ljspeech.py:226-227 | After a match, anything past the line's newline has no effect on the result |
| Samples.Plainly | tensorflow_tts/processor/ljspeech.py:217-222 | With a cleaner that changes nothing and no match, the IDs are the per-character reference lookup of the text itself |
| Samples.Greeting | tensorflow_tts/processor/ljspeech.py:211-228 | With an identity cleaner, `Hi, {AY1}` gives `[19, 46, 6, 11, 86]` |
| Samples.NoCodesInside | tensorflow_tts/processor/ljspeech.py:244-245 | A span holding `} b {AY1` yields nothing, because no word is a code |
| Samples.Unclosed | tensorflow_tts/processor/ljspeech.py:217-222 | `a {bad` has no match; the `{` drops out and the letters and space are mapped |
| Samples.BareBraces | tensorflow_tts/processor/ljspeech.py:217-222 | `x {} y` has no match; both braces drop out |
| PyText.Strip | tensorflow_tts/processor/ljspeech.py:183 | The result is the slice of the input that starts after its leading whitespace, only whitespace follows it, and it neither starts nor ends with whitespace |
| PyText.StripSurrounded | tensorflow_tts/processor/ljspeech.py:183 | Stripping whitespace placed around a string that neither starts nor ends with whitespace gives back that string |
| PyText.Split | tensorflow_tts/processor/ljspeech.py:183 | One more piece than separators, no piece contains the separator, and joining the pieces with it gives back the input |
| PyText.Words | tensorflow_tts/processor/ljspeech.py:245 | The words are non-empty, contain no whitespace, and concatenate to the input's non-whitespace characters |
| PyText.JoinPath | tensorflow_tts/processor/ljspeech.py:184 | POSIX join: an absolute second component replaces the first; otherwise the result starts with the first part and ends with the second, is one or zero characters longer than the two together, and has the extra character, a `/`, exactly when the first part is non-empty and does not already end in `/` |
| PyText.LastPathPiece | tensorflow_tts/processor/ljspeech.py:184-204 | After a join, splitting at `/` gives the joined file name as the last piece |
| Processor.WavPath | tensorflow_tts/processor/ljspeech.py:184 | The path ends with `<id>.wav`; for a non-empty root and a relative id it is exactly `<root>/wavs/<id>.wav` (no extra `/` when the root already ends in one) |
| Processor.ParseLine | tensorflow_tts/processor/ljspeech.py:183-185 | Fails iff the stripped line has fewer than two field separators, and then with IndexError; an item's text holds no separator and its speaker is `ljspeech` |
| Processor.ParseFormatted | tensorflow_tts/processor/ljspeech.py:183-185 | A line of three separated fields (id, raw text, text), with surrounding whitespace, gives the third field as text and the wave path of the id |
| Processor.ParseExtraFields | tensorflow_tts/processor/ljspeech.py:183-185 | Fields after the third are ignored: a stripped line that starts with three fields gives the third as text and the wave path of the first, whatever follows |
| Processor.SplitFormatted | tensorflow_tts/processor/ljspeech.py:183 | Splitting a formatted line at the field separator gives back its three fields |
| Processor.Items | tensorflow_tts/processor/ljspeech.py:181-188 | A loaded manifest has one item per line |
| Processor.ItemsFail | tensorflow_tts/processor/ljspeech.py:181-188 | Loading fails iff some line fails to parse, and then with IndexError |
| Processor.ItemsAt | tensorflow_tts/processor/ljspeech.py:181-188 | Item `k` is what line `k` parses to, so order is kept |
| Processor.NewProcessor | tensorflow_tts/processor/ljspeech.py:174-188 | Without a root path there are no items; with one, the loop yields exactly Items or its IndexError |
| Processor.UttId | tensorflow_tts/processor/ljspeech.py:204 | The utterance id has no `/` and no `.` |
| Processor.UttIdOfWavPath | tensorflow_tts/processor/ljspeech.py:184-204 | The utterance id read from a wave path is the id it was made from |
| Processor.PyIndex | tensorflow_tts/processor/ljspeech.py:191 | A list index is valid iff it is in `[-n, n)`, and a negative index counts from the end |
| Processor.SampleAt | tensorflow_tts/processor/ljspeech.py:190-209 | Succeeds iff items exist, the index is valid and the cleaner is known (or the text is empty); the IDs lie in 1–147 and the utterance id has no `/` or `.` |
| Processor.SampleOfItem | tensorflow_tts/processor/ljspeech.py:190-209 | At any valid index, negative ones counting from the end, and with a known cleaner, the sample holds the item's raw text, the IDs of that text, the utterance id of its wave path and its speaker |
| Processor.GetOneSample | tensorflow_tts/processor/ljspeech.py:190-209 | The method, running the `text_to_sequence` loop, returns exactly SampleAt |
| Processor.SampleOfLine | tensorflow_tts/processor/ljspeech.py:174-209 | The sample of a well-formed manifest line carries that line's text, the IDs of that text and the id the line starts with |

## Left out

- File I/O. The manifest is given as its sequence of lines; opening
  `metadata.csv`, its encoding and the reader's line splitting are not modelled.
- `sf.read`, the audio, its `float32` cast and the sampling rate. A sample holds the
  raw text, the IDs, the utterance id and the speaker. A missing wave file, which
  would raise before any text is read, is not modelled.
- The `np.int32` conversion of the IDs. IDs are natural numbers, and all of them
  are below 149.
- The cleaners' internals. Cleaners form a registry of total string functions by
  name. `getattr` failing and a falsy attribute both become the single error
  `UnknownCleaner(name)`.
- The `global` statement in `text_to_sequence`. It only names the module-level table.
- The `items` attribute. Without a root path it is never assigned, so reading it
  raises AttributeError. This is modelled as `items = None` and the error
  `MissingItems`.
- The `cleaner_names` type. `text_to_sequence` wraps `cleaner_names` in a list, so
  the model takes one cleaner name.
- A consequence of the pattern: `(.*)` stops at the first newline, so once a span
  matches, the rest of the text after that newline is dropped (Tokenizer.RestOfLine).
- PyText.JoinPath: `os.path.join` is modelled as the POSIX join with `/`. The Windows
  join, with `\` separators, and its effect on the utterance id read by
  `split("/")[-1]` are not captured.
- Processor: the processor never changes its fields after `__init__`, so it is a
  value (a datatype) rather than a class.
