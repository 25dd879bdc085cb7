/** Symbol to ID mapping: `_should_keep_symbol`, `_symbols_to_sequence` and
    `_arpabet_to_sequence`. */
module Encoding {
  import opened Vocabulary
  import PyText

  /** `_should_keep_symbol`: in the table, and neither pad nor end of sequence. */
  function ShouldKeep(s: string): (keep: bool)
    ensures keep <==> s in SymbolToId() && PadId < SymbolToId()[s] < EosId
  {
    Layout();
    s in SymbolToId() && s != Pad && s != Eos
  }

  /** The symbols `_symbols_to_sequence` keeps, in order. */
  function Kept(symbols: seq<string>): (kept: seq<string>)
    decreases |symbols|
  {
    if |symbols| == 0 then []
    else (if ShouldKeep(symbols[0]) then [symbols[0]] else []) + Kept(symbols[1..])
  }

  /** `_symbols_to_sequence`: the ID of each symbol worth keeping, in input order;
      every other symbol is dropped without an error. */
  function SymbolsToSequence(symbols: seq<string>): (ids: seq<nat>)
    ensures |ids| <= |symbols|
    ensures forall k :: 0 <= k < |ids| ==> PadId < ids[k] < EosId
    decreases |symbols|
  {
    if |symbols| == 0 then []
    else (if ShouldKeep(symbols[0]) then [SymbolToId()[symbols[0]]] else [])
         + SymbolsToSequence(symbols[1..])
  }

  /** Reading IDs back through `_id_to_symbol`. */
  function Decode(ids: seq<nat>): (symbols: seq<string>)
    requires forall k :: 0 <= k < |ids| ==> ids[k] < |Symbols|
  {
    seq(|ids|, k requires 0 <= k < |ids| => IdToSymbol()[ids[k]])
  }

  /** The IDs decode to exactly the kept symbols, in order. */
  lemma {:induction false} DecodeSymbolsToSequence(symbols: seq<string>)
    ensures Decode(SymbolsToSequence(symbols)) == Kept(symbols)
    decreases |symbols|
  {
    Layout();
    if symbols != [] {
      DecodeSymbolsToSequence(symbols[1..]);
      var head := if ShouldKeep(symbols[0]) then [SymbolToId()[symbols[0]]] else [];
      DecodeAppend(head, SymbolsToSequence(symbols[1..]));
      if ShouldKeep(symbols[0]) {
        var i := SymbolToId()[symbols[0]];
        assert IdToSymbol()[i] == symbols[0];
        assert Decode(head) == [symbols[0]];
      } else {
        assert Decode(head) == [];
      }
    }
  }

  lemma DecodeAppend(a: seq<nat>, b: seq<nat>)
    requires forall k :: 0 <= k < |a| ==> a[k] < |Symbols|
    requires forall k :: 0 <= k < |b| ==> b[k] < |Symbols|
    ensures Decode(a + b) == Decode(a) + Decode(b)
  {
  }

  /** The IDs of a concatenation are the concatenation of the IDs. */
  lemma {:induction false} SymbolsToSequenceAppend(a: seq<string>, b: seq<string>)
    ensures SymbolsToSequence(a + b) == SymbolsToSequence(a) + SymbolsToSequence(b)
    decreases |a|
  {
    if a == [] {
      assert a + b == b;
    } else {
      assert (a + b)[1..] == a[1..] + b;
      SymbolsToSequenceAppend(a[1..], b);
    }
  }

  /** A symbol that is not kept leaves no trace: no ID, no gap, no error. */
  lemma Dropped(a: seq<string>, s: string, b: seq<string>)
    requires !ShouldKeep(s)
    ensures SymbolsToSequence(a + [s] + b) == SymbolsToSequence(a + b)
  {
    SymbolsToSequenceAppend(a + [s], b);
    SymbolsToSequenceAppend(a, [s]);
    SymbolsToSequenceAppend(a, b);
  }

  /** `_symbols_to_sequence(text)` on a string: its characters, as one-character
      symbols. Such symbols lie in the pad-to-letters part of the table, so plain text
      never yields an ARPAbet ID. */
  function CharsToSequence(text: string): (ids: seq<nat>)
    ensures forall k :: 0 <= k < |ids| ==> PadId < ids[k] < ArpabetBase
  {
    OneCharIds(CharList(text));
    SymbolsToSequence(CharList(text))
  }

  lemma {:induction false} OneCharIds(symbols: seq<string>)
    requires forall k :: 0 <= k < |symbols| ==> |symbols[k]| == 1
    ensures forall k :: 0 <= k < |SymbolsToSequence(symbols)| ==> SymbolsToSequence(symbols)[k] < ArpabetBase
    decreases |symbols|
  {
    if symbols != [] {
      OneCharIds(symbols[1..]);
      if ShouldKeep(symbols[0]) {
        var i := SymbolToId()[symbols[0]];
        ShortEntry(i);
      }
    }
  }

  /** The entries of length one are those before the ARPAbet part, and the end mark. */
  lemma ShortEntry(i: nat)
    requires i < |Symbols| && |Symbols[i]| == 1
    ensures i < ArpabetBase || i == EosId
  {
    Layout();
    if ArpabetBase <= i < EosId {
      assert Symbols[i] == "@" + ValidSymbols[i - ArpabetBase];
      CodesNonEmpty(i - ArpabetBase);
    }
  }

  /** `_arpabet_to_sequence`: each whitespace-separated word behind "@", looked up.
      The text never goes through a cleaner, and only ARPAbet IDs come out. */
  function ArpabetToSequence(text: string): (ids: seq<nat>)
    ensures forall k :: 0 <= k < |ids| ==> ArpabetBase <= ids[k] < EosId
  {
    var words := PyText.Words(text);
    MarkedIds(words);
    SymbolsToSequence(Marked(words))
  }

  lemma {:induction false} MarkedIds(words: seq<string>)
    requires forall k :: 0 <= k < |words| ==> |words[k]| > 0
    ensures forall k :: 0 <= k < |SymbolsToSequence(Marked(words))| ==>
              ArpabetBase <= SymbolsToSequence(Marked(words))[k]
    decreases |words|
  {
    if words != [] {
      assert Marked(words) == ["@" + words[0]] + Marked(words[1..]);
      SymbolsToSequenceAppend(["@" + words[0]], Marked(words[1..]));
      MarkedIds(words[1..]);
      if ShouldKeep("@" + words[0]) {
        var i := SymbolToId()["@" + words[0]];
        LongEntry(i);
      }
    }
  }

  /** The entries longer than one character are the ARPAbet ones. */
  lemma LongEntry(i: nat)
    requires i < |Symbols| && |Symbols[i]| > 1
    ensures ArpabetBase <= i < EosId
  {
    CharIdInverts();
  }

  /** All-whitespace text yields no IDs. */
  lemma BlankArpabet(text: string)
    requires PyText.AllSpace(text)
    ensures ArpabetToSequence(text) == []
  {
    PyText.WordsOfBlank(text);
  }

  /** Every ARPAbet code, alone, yields exactly its own ID. */
  lemma ArpabetCode(k: nat)
    requires k < |ValidSymbols|
    ensures ArpabetToSequence(ValidSymbols[k]) == [ArpabetBase + k]
  {
    Layout();
    CodesNonEmpty(k);
    CodesWithoutSpace(k);
    PyText.WordsOfWord(ValidSymbols[k]);
    assert Marked([ValidSymbols[k]]) == [Symbols[ArpabetBase + k]];
  }

  /** A whitespace character separates the IDs of the words before it from those
      of the words after it. */
  lemma ArpabetAroundSpace(a: string, c: char, b: string)
    requires PyText.IsSpace(c)
    ensures ArpabetToSequence(a + [c] + b) == ArpabetToSequence(a) + ArpabetToSequence(b)
  {
    PyText.WordsAroundSpace(a, c, b);
    assert Marked(PyText.Words(a) + PyText.Words(b)) == Marked(PyText.Words(a)) + Marked(PyText.Words(b));
    SymbolsToSequenceAppend(Marked(PyText.Words(a)), Marked(PyText.Words(b)));
  }

  /** The codes with indexes `ks`, written one after another with a space between. */
  function CodeText(ks: seq<nat>): string
    requires forall i :: 0 <= i < |ks| ==> ks[i] < |ValidSymbols|
    decreases |ks|
  {
    if |ks| == 0 then ""
    else if |ks| == 1 then ValidSymbols[ks[0]]
    else ValidSymbols[ks[0]] + " " + CodeText(ks[1..])
  }

  /** The IDs of the codes with indexes `ks`, in order. */
  function CodeIds(ks: seq<nat>): (ids: seq<nat>)
    ensures |ids| == |ks| && forall i :: 0 <= i < |ks| ==> ids[i] == ArpabetBase + ks[i]
  {
    seq(|ks|, i requires 0 <= i < |ks| => ArpabetBase + ks[i])
  }

  /** A span of space-separated codes yields each code's ID, in order. */
  lemma {:induction false} ArpabetCodes(ks: seq<nat>)
    requires forall i :: 0 <= i < |ks| ==> ks[i] < |ValidSymbols|
    ensures ArpabetToSequence(CodeText(ks)) == CodeIds(ks)
    decreases |ks|
  {
    if |ks| == 0 {
      PyText.WordsOfBlank("");
    } else if |ks| == 1 {
      ArpabetCode(ks[0]);
      assert CodeIds(ks) == [ArpabetBase + ks[0]];
    } else {
      CodeBeforeSpace(ks[0], CodeText(ks[1..]));
      ArpabetCodes(ks[1..]);
      CodeIdsCons(ks);
    }
  }

  /** A code followed by a space contributes its own ID ahead of the rest. */
  lemma CodeBeforeSpace(k: nat, rest: string)
    requires k < |ValidSymbols|
    ensures ArpabetToSequence(ValidSymbols[k] + " " + rest) == [ArpabetBase + k] + ArpabetToSequence(rest)
  {
    ArpabetAroundSpace(ValidSymbols[k], ' ', rest);
    ArpabetCode(k);
  }

  lemma CodeIdsCons(ks: seq<nat>)
    requires |ks| > 0
    ensures CodeIds(ks) == [ArpabetBase + ks[0]] + CodeIds(ks[1..])
  {
    assert forall i :: 1 <= i < |ks| ==> ks[1..][i - 1] == ks[i];
  }

  /** A word whose first character sorts after 'Z' is not an ARPAbet code, so
      behind "@" it is not in the table. */
  lemma NotACode(w: string)
    requires |w| > 0 && w[0] > 'Z'
    ensures !ShouldKeep("@" + w)
  {
    if "@" + w in SymbolToId() {
      var i := SymbolToId()["@" + w];
      LongEntry(i);
      Layout();
      var k := i - ArpabetBase;
      assert ValidSymbols[k] == ("@" + w)[1..] == w;
      ValidSymbolsSorted();
      LastCode();
      assert false;
    }
  }

  lemma CodesNonEmpty(k: nat)
    requires k < |ValidSymbols|
    ensures |ValidSymbols[k]| > 0
  {
    CodesShaped();
  }

  lemma CodesWithoutSpace(k: nat)
    requires k < |ValidSymbols|
    ensures PyText.NoSpace(ValidSymbols[k])
  {
    CodesShaped();
  }

  /** The table entry at `i` is looked up as `i`, and kept unless it is the pad or
      the end mark. */
  lemma IdOf(s: string, i: nat)
    requires i < |Symbols| && Symbols[i] == s
    ensures s in SymbolToId() && SymbolToId()[s] == i
    ensures ShouldKeep(s) <==> PadId < i < EosId
  {
  }

  /** Plain text through CharId alone: each character's position, with the pad, the
      end mark and characters outside the table left out. */
  function CharIds(text: string): (ids: seq<nat>)
    ensures |ids| <= |text|
    decreases |text|
  {
    if |text| == 0 then []
    else
      (match CharId(text[0])
       case Some(i) => if PadId < i < EosId then [i] else []
       case None => [])
      + CharIds(text[1..])
  }

  /** Looking each character up in the table gives what CharId gives. */
  lemma {:induction false} CharsByCharId(text: string)
    ensures CharsToSequence(text) == CharIds(text)
    decreases |text|
  {
    if |text| > 0 {
      CharsByCharId(text[1..]);
      assert CharList(text)[1..] == CharList(text[1..]);
      OneChar(text[0]);
    }
  }

  /** A character is kept exactly when CharId numbers it strictly between the pad and
      the end mark, and then its ID is that number. */
  lemma OneChar(c: char)
    ensures ShouldKeep([c]) <==> CharId(c).Some? && PadId < CharId(c).value < EosId
    ensures ShouldKeep([c]) ==> SymbolToId()[[c]] == CharId(c).value
  {
    CharIdInverts();
    if [c] in SymbolToId() {
      ShortEntry(SymbolToId()[[c]]);
    }
    if CharId(c).Some? {
      IdOf([c], CharId(c).value);
    }
  }
}
