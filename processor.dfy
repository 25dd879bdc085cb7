/** `LJSpeechProcessor`: the LJSpeech manifest read into items, and one training
    sample put together from an item. */
module Processor {
  import opened Wrappers
  import opened PyText
  import Cleaning
  import Tokenizer

  const SpeakerName: string := "ljspeech"

  /** One manifest entry, `[text, wav_path, speaker_name]`. */
  datatype Item = Item(text: string, wavPath: string, speakerName: string)

  /** The processor once `__init__` has run. Without a root path `items` is never
      assigned. */
  datatype Processor = Processor(rootPath: Option<string>, cleanerName: string,
                                 items: Option<seq<Item>>, speakerName: string)

  /** What `get_one_sample` returns, without the audio and its sampling rate. */
  datatype Sample = Sample(rawText: string, textIds: seq<nat>, uttId: string, speakerName: string)

  /** `os.path.join(root, "wavs", "%s.wav" % id)`. */
  function WavPath(root: string, id: string): (path: string)
    ensures |path| >= |id| + 4 && path[|path| - |id| - 4..] == id + ".wav"
    ensures |root| > 0 && root[|root| - 1] != '/' && (|id| == 0 || id[0] != '/')
            ==> path == root + "/wavs/" + id + ".wav"
    ensures |root| > 0 && root[|root| - 1] == '/' && (|id| == 0 || id[0] != '/')
            ==> path == root + "wavs/" + id + ".wav"
  {
    JoinPath(JoinPath(root, "wavs"), id + ".wav")
  }

  /** An LJSpeech manifest line: the utterance id, its transcription and its
      normalized transcription, separated by "|". */
  function FormatLine(id: string, raw: string, text: string): (line: string)
    ensures |line| == |id| + |raw| + |text| + 2
  {
    id + "|" + raw + "|" + text
  }

  /** One manifest line: stripped, split at "|"; the first field names the wave
      file and the third is the text. A line with fewer than three fields raises
      IndexError. */
  function ParseLine(root: string, line: string): (r: Result<Item>)
    ensures r.Err? <==> Occurrences(Strip(line), '|') < 2
    ensures r.Err? ==> r.error == IndexError
    ensures r.Ok? ==> r.value.speakerName == SpeakerName && '|' !in r.value.text
  {
    var parts := Split(Strip(line), '|');
    var wav := WavPath(root, parts[0]);
    if |parts| < 3 then Err(IndexError) else Ok(Item(parts[2], wav, SpeakerName))
  }

  /** A well-formed line, with any surrounding whitespace, gives back the text and
      the wave file of its utterance. */
  lemma ParseFormatted(root: string, lead: string, id: string, raw: string, text: string, trail: string)
    requires '|' !in id && '|' !in raw && '|' !in text
    requires AllSpace(lead) && AllSpace(trail)
    requires id == [] || !IsSpace(id[0])
    requires text == [] || !IsSpace(text[|text| - 1])
    ensures ParseLine(root, lead + FormatLine(id, raw, text) + trail) == Ok(Item(text, WavPath(root, id), SpeakerName))
  {
    StripFormatted(lead, id, raw, text, trail);
    SplitFormatted(id, raw, text);
  }

  /** Fields after the third are ignored: a stripped line that starts with three
      fields gives the third as text and the wave path of the first, whatever
      further fields follow. */
  lemma ParseExtraFields(root: string, line: string, id: string, raw: string, text: string, more: string)
    requires '|' !in id && '|' !in raw && '|' !in text
    requires more == [] || more[0] == '|'
    requires Strip(line) == id + "|" + raw + "|" + text + more
    ensures ParseLine(root, line) == Ok(Item(text, WavPath(root, id), SpeakerName))
  {
    if more == [] {
      assert Strip(line) == FormatLine(id, raw, text);
      SplitFormatted(id, raw, text);
    } else {
      var tail := more[1..];
      assert Strip(line) == id + ['|'] + (raw + ['|'] + (text + ['|'] + tail));
      SplitAround(id, raw + ['|'] + (text + ['|'] + tail), '|');
      SplitAround(raw, text + ['|'] + tail, '|');
      SplitAround(text, tail, '|');
      SplitWithoutSeparator(id, '|');
      SplitWithoutSeparator(raw, '|');
      SplitWithoutSeparator(text, '|');
    }
  }

  /** Stripping a well-formed line with surrounding whitespace gives the line. */
  lemma StripFormatted(lead: string, id: string, raw: string, text: string, trail: string)
    requires AllSpace(lead) && AllSpace(trail)
    requires id == [] || !IsSpace(id[0])
    requires text == [] || !IsSpace(text[|text| - 1])
    ensures Strip(lead + FormatLine(id, raw, text) + trail) == FormatLine(id, raw, text)
  {
    var line := FormatLine(id, raw, text);
    assert line[0] == if id == [] then '|' else id[0];
    assert line[|line| - 1] == if text == [] then '|' else text[|text| - 1];
    StripSurrounded(lead, line, trail);
  }

  /** A well-formed line splits into its three fields. */
  lemma SplitFormatted(id: string, raw: string, text: string)
    requires '|' !in id && '|' !in raw && '|' !in text
    ensures Split(FormatLine(id, raw, text), '|') == [id, raw, text]
  {
    assert FormatLine(id, raw, text) == id + ['|'] + (raw + ['|'] + text);
    SplitAround(id, raw + ['|'] + text, '|');
    SplitAround(raw, text, '|');
    SplitWithoutSeparator(id, '|');
    SplitWithoutSeparator(raw, '|');
    SplitWithoutSeparator(text, '|');
  }

  /** The items the loop in `__init__` collects: one per manifest line, in order,
      or the IndexError of the first line that has too few fields. */
  function Items(root: string, lines: seq<string>): (r: Result<seq<Item>>)
    ensures r.Ok? ==> |r.value| == |lines|
  {
    Collect(Parsed(root, lines))
  }

  /** Each manifest line, parsed. */
  function Parsed(root: string, lines: seq<string>): seq<Result<Item>> {
    seq(|lines|, k requires 0 <= k < |lines| => ParseLine(root, lines[k]))
  }

  /** Parsing one more line adds its result at the end. */
  lemma ParsedSnoc(root: string, lines: seq<string>, i: nat)
    requires i < |lines|
    ensures Parsed(root, lines[..i + 1]) == Parsed(root, lines[..i]) + [ParseLine(root, lines[i])]
  {
    var a, b := Parsed(root, lines[..i + 1]), Parsed(root, lines[..i]) + [ParseLine(root, lines[i])];
    forall k | 0 <= k <= i
      ensures a[k] == b[k]
    {
      assert lines[..i + 1][k] == lines[k];
      if k < i {
        assert lines[..i][k] == lines[k];
      }
    }
  }

  /** Every item of `results`, in order, or the first error among them. */
  function Collect(results: seq<Result<Item>>): (r: Result<seq<Item>>)
    ensures r.Ok? ==> |r.value| == |results|
    decreases |results|
  {
    if |results| == 0 then Ok([])
    else
      var item :- results[0];
      var rest :- Collect(results[1..]);
      Ok([item] + rest)
  }

  /** Collecting fails exactly when one of the results is an error, and then with
      that error. */
  lemma {:induction false} CollectFail(results: seq<Result<Item>>)
    ensures Collect(results).Err? <==> exists k :: 0 <= k < |results| && results[k].Err?
    ensures Collect(results).Err? ==>
              exists k :: 0 <= k < |results| && results[k] == Err(Collect(results).error)
    decreases |results|
  {
    if |results| > 0 && results[0].Ok? {
      CollectFail(results[1..]);
      if Collect(results[1..]).Err? {
        var j :| 0 <= j < |results| - 1 && results[1..][j] == Err(Collect(results[1..]).error);
        assert results[j + 1] == results[1..][j];
      } else {
        forall k | 0 <= k < |results|
          ensures results[k].Ok?
        {
          if k > 0 {
            assert results[k] == results[1..][k - 1];
          }
        }
      }
    }
  }

  /** A successful collection holds the value of each result at its own position. */
  lemma {:induction false} CollectAt(results: seq<Result<Item>>, k: nat)
    requires Collect(results).Ok? && k < |results|
    ensures results[k] == Ok(Collect(results).value[k])
    decreases k
  {
    if k > 0 {
      CollectAt(results[1..], k - 1);
      assert results[1..][k - 1] == results[k];
    }
  }

  /** Collecting one more result: an earlier error stands, otherwise its item is
      appended or its error is returned. */
  lemma {:induction false} CollectSnoc(results: seq<Result<Item>>, next: Result<Item>)
    ensures Collect(results + [next])
            == match Collect(results)
               case Err(e) => Err(e)
               case Ok(items) => (match next case Err(e) => Err(e) case Ok(item) => Ok(items + [item]))
    decreases |results|
  {
    if results == [] {
      assert results + [next] == [next];
      assert [next][1..] == [];
      if next.Ok? {
        assert [next.value] + [] == [] + [next.value];
      }
    } else {
      assert (results + [next])[0] == results[0];
      assert (results + [next])[1..] == results[1..] + [next];
      CollectSnoc(results[1..], next);
      if results[0].Ok? && Collect(results[1..]).Ok? && next.Ok? {
        var x, y, z := [results[0].value], Collect(results[1..]).value, [next.value];
        assert x + (y + z) == x + y + z;
      }
    }
  }

  /** The manifest fails to load exactly when one of its lines has too few fields,
      and then with IndexError. */
  lemma ItemsFail(root: string, lines: seq<string>)
    ensures Items(root, lines).Err? <==> exists k :: 0 <= k < |lines| && ParseLine(root, lines[k]).Err?
    ensures Items(root, lines).Err? ==> Items(root, lines).error == IndexError
  {
    var results := Parsed(root, lines);
    CollectFail(results);
    if Items(root, lines).Err? {
      var k :| 0 <= k < |results| && results[k] == Err(Items(root, lines).error);
      assert ParseLine(root, lines[k]) == results[k];
    } else {
      forall k | 0 <= k < |lines|
        ensures ParseLine(root, lines[k]).Ok?
      {
        assert results[k] == ParseLine(root, lines[k]);
      }
    }
  }

  /** In a loaded manifest, item `k` is what line `k` parses to. */
  lemma ItemsAt(root: string, lines: seq<string>, k: nat)
    requires Items(root, lines).Ok? && k < |lines|
    ensures ParseLine(root, lines[k]) == Ok(Items(root, lines).value[k])
  {
    CollectAt(Parsed(root, lines), k);
  }

  /** `__init__`: with a root path, every manifest line becomes an item (the manifest's
      lines are given, as the file reader would yield them); without one, no items. */
  method NewProcessor(rootPath: Option<string>, cleanerName: string, lines: seq<string>)
    returns (r: Result<Processor>)
    ensures rootPath.None? ==> r == Ok(Processor(None, cleanerName, None, SpeakerName))
    ensures rootPath.Some? && Items(rootPath.value, lines).Err? ==> r == Err(IndexError)
    ensures rootPath.Some? && Items(rootPath.value, lines).Ok? ==>
              r == Ok(Processor(rootPath, cleanerName, Some(Items(rootPath.value, lines).value), SpeakerName))
  {
    if rootPath.None? {
      return Ok(Processor(None, cleanerName, None, SpeakerName));
    }
    var root := rootPath.value;
    var items: seq<Item> := [];
    for i := 0 to |lines|
      invariant Items(root, lines[..i]) == Ok(items)
    {
      var parts := Split(Strip(lines[i]), '|');
      var wavPath := WavPath(root, parts[0]);
      ParsedSnoc(root, lines, i);
      CollectSnoc(Parsed(root, lines[..i]), ParseLine(root, lines[i]));
      if |parts| < 3 {
        assert ParseLine(root, lines[i]).Err?;
        ItemsFail(root, lines);
        return Err(IndexError);
      }
      items := items + [Item(parts[2], wavPath, SpeakerName)];
    }
    assert lines[..|lines|] == lines;
    return Ok(Processor(rootPath, cleanerName, Some(items), SpeakerName));
  }

  /** `path.split("/")[-1].split(".")[0]`: the file name up to its first dot. */
  function UttId(path: string): (id: string)
    ensures '/' !in id && '.' !in id
  {
    var pieces := Split(path, '/');
    Split(pieces[|pieces| - 1], '.')[0]
  }

  /** The utterance id read back from a wave path is the id the path was made from. */
  lemma UttIdOfWavPath(root: string, id: string)
    requires '/' !in id && '.' !in id
    ensures UttId(WavPath(root, id)) == id
  {
    WavName(id);
    UttIdOfJoin(JoinPath(root, "wavs"), id + ".wav");
  }

  /** The utterance id of a directory joined with a file name is that name up to its
      first dot. */
  lemma UttIdOfJoin(dir: string, name: string)
    requires '/' !in name
    ensures UttId(JoinPath(dir, name)) == Split(name, '.')[0]
  {
    LastPathPiece(dir, name);
    UttIdOfPath(JoinPath(dir, name), name);
  }

  /** The utterance id of a path is its last piece up to the first dot. */
  lemma UttIdOfPath(path: string, name: string)
    requires var pieces := Split(path, '/'); pieces[|pieces| - 1] == name
    ensures UttId(path) == Split(name, '.')[0]
  {
  }

  /** The file name `id.wav` has no "/" and, up to its first dot, is `id`. */
  lemma WavName(id: string)
    requires '/' !in id && '.' !in id
    ensures '/' !in id + ".wav" && Split(id + ".wav", '.')[0] == id
  {
    assert id + ".wav" == id + ['.'] + "wav";
    FirstPiece(id, "wav", '.');
  }

  /** The position `xs[i]` reads in a list of length `n`: a negative index counts
      from the end; outside `[-n, n)` it raises IndexError. */
  function PyIndex(n: nat, i: int): (r: Option<nat>)
    ensures r.Some? <==> -(n as int) <= i < n
    ensures r.Some? ==> r.value < n && (r.value - i) % n == 0
  {
    if 0 <= i < n then Some(i)
    else if -(n as int) <= i < 0 then Some(n + i)
    else None
  }

  /** `get_one_sample(idx)` without the audio: the item's text, its IDs, the utterance
      id taken from its wave path, and its speaker. */
  function SampleAt(proc: Processor, idx: int, registry: Cleaning.Registry): (r: Result<Sample>)
    ensures r.Ok? <==> (proc.items.Some? && PyIndex(|proc.items.value|, idx).Some?
                        && (proc.cleanerName in registry
                            || proc.items.value[PyIndex(|proc.items.value|, idx).value].text == []))
    ensures r.Ok? ==> Tokenizer.Emittable(r.value.textIds)
    ensures r.Ok? ==> '/' !in r.value.uttId && '.' !in r.value.uttId
  {
    if proc.items.None? then Err(MissingItems)
    else
      match PyIndex(|proc.items.value|, idx)
      case None => Err(IndexError)
      case Some(k) =>
        var item := proc.items.value[k];
        Tokenizer.TokenizeInRange(item.text, proc.cleanerName, registry);
        var ids :- Tokenizer.Tokenize(item.text, proc.cleanerName, registry);
        Ok(Sample(item.text, ids, UttId(item.wavPath), item.speakerName))
  }

  /** `get_one_sample`, with the text converted by the `text_to_sequence` loop. The
      source has no loop of its own here; this method follows SampleAt step by step
      so that the sample is built by running TextToSequence rather than by the
      function Tokenize that specifies it. */
  method GetOneSample(proc: Processor, idx: int, registry: Cleaning.Registry) returns (r: Result<Sample>)
    ensures r == SampleAt(proc, idx, registry)
  {
    if proc.items.None? {
      return Err(MissingItems);
    }
    var items := proc.items.value;
    var k := PyIndex(|items|, idx);
    if k.None? {
      return Err(IndexError);
    }
    var item := items[k.value];
    var ids := Tokenizer.TextToSequence(item.text, proc.cleanerName, registry);
    if ids.Err? {
      return Err(ids.error);
    }
    return Ok(Sample(item.text, ids.value, UttId(item.wavPath), item.speakerName));
  }

  /** The sample of a well-formed manifest line carries that line's normalized text,
      its IDs and the utterance id the line starts with. */
  lemma SampleOfLine(root: string, cleanerName: string, lines: seq<string>, k: nat,
                     lead: string, id: string, raw: string, text: string, trail: string,
                     registry: Cleaning.Registry)
    requires Items(root, lines).Ok? && k < |lines|
    requires lines[k] == lead + FormatLine(id, raw, text) + trail
    requires '|' !in id && '|' !in raw && '|' !in text && '/' !in id && '.' !in id
    requires AllSpace(lead) && AllSpace(trail)
    requires id == [] || !IsSpace(id[0])
    requires text == [] || !IsSpace(text[|text| - 1])
    requires cleanerName in registry
    ensures var proc := Processor(Some(root), cleanerName, Some(Items(root, lines).value), SpeakerName);
            SampleAt(proc, k, registry)
            == Ok(Sample(text, Tokenizer.Tokenize(text, cleanerName, registry).value, id, SpeakerName))
  {
    ParseFormatted(root, lead, id, raw, text, trail);
    ItemsAt(root, lines, k);
    UttIdOfWavPath(root, id);
    var proc := Processor(Some(root), cleanerName, Some(Items(root, lines).value), SpeakerName);
    SampleOfItem(proc, k, registry);
  }

  /** The sample at any valid index, negative ones counting from the end, under a
      known cleaner: the item's text, its IDs, the utterance id of its wave path and
      its speaker. */
  lemma SampleOfItem(proc: Processor, idx: int, registry: Cleaning.Registry)
    requires proc.items.Some? && PyIndex(|proc.items.value|, idx).Some?
    requires proc.cleanerName in registry
    ensures var item := proc.items.value[PyIndex(|proc.items.value|, idx).value];
            SampleAt(proc, idx, registry)
            == Ok(Sample(item.text, Tokenizer.Tokenize(item.text, proc.cleanerName, registry).value,
                         UttId(item.wavPath), item.speakerName))
  {
  }
}
