/** The closed symbol table of the LJSpeech processor: the ordered list `symbols`
    and the two dictionaries that number it (`_symbol_to_id`, `_id_to_symbol`). */
module Vocabulary {
  import opened Wrappers

  const Pad: string := "_"
  const Eos: string := "~"
  const Punctuation: string := "!'(),.:;? "
  const Special: string := "-"
  /** `_letters`: the upper-case then the lower-case alphabet. It is one string
      literal in Python; the four thirteen-letter pieces here let the verifier
      read off each letter's character code (CharacterCodes). */
  const Letters: string := "ABCDEFGHIJKLM" + "NOPQRSTUVWXYZ" + "abcdefghijklm" + "nopqrstuvwxyz"

  /** The ARPAbet codes, in the source's order: 39 phonemes, the vowels with their
      unstressed and three stress variants. (Written as rows of twelve.) */
  const ValidSymbols: seq<string> :=
    ["AA", "AA0", "AA1", "AA2", "AE", "AE0", "AE1", "AE2", "AH", "AH0", "AH1", "AH2"]
    + ["AO", "AO0", "AO1", "AO2", "AW", "AW0", "AW1", "AW2", "AY", "AY0", "AY1", "AY2"]
    + ["B", "CH", "D", "DH", "EH", "EH0", "EH1", "EH2", "ER", "ER0", "ER1", "ER2"]
    + ["EY", "EY0", "EY1", "EY2", "F", "G", "HH", "IH", "IH0", "IH1", "IH2", "IY"]
    + ["IY0", "IY1", "IY2", "JH", "K", "L", "M", "N", "NG", "OW", "OW0", "OW1"]
    + ["OW2", "OY", "OY0", "OY1", "OY2", "P", "R", "S", "SH", "T", "TH", "UH"]
    + ["UH0", "UH1", "UH2", "UW", "UW0", "UW1", "UW2", "V", "W", "Y", "Z", "ZH"]

  /** `list(s)`: every character of `s` as a one-character symbol, in order. */
  function CharList(s: string): seq<string> {
    seq(|s|, i requires 0 <= i < |s| => [s[i]])
  }

  /** `["@" + s for s in codes]`: each code behind the "@" marker that keeps it apart
      from a plain letter of the same spelling. */
  function Marked(codes: seq<string>): seq<string> {
    seq(|codes|, i requires 0 <= i < |codes| => "@" + codes[i])
  }

  const Arpabet: seq<string> := Marked(ValidSymbols)

  /** `symbols`: pad, special, punctuation, letters, ARPAbet, end of sequence. */
  const Symbols: seq<string> :=
    [Pad] + CharList(Special) + CharList(Punctuation) + CharList(Letters) + Arpabet + [Eos]

  const PadId: nat := 0
  const PunctuationBase: nat := 2
  const LetterBase: nat := 12
  const ArpabetBase: nat := 64
  const EosId: nat := 148

  /** The layout of the table: where each group starts and what it holds. */
  lemma Layout()
    ensures |Punctuation| == 10 && |Letters| == 52 && |ValidSymbols| == 84
    ensures |Symbols| == 149 == EosId + 1
    ensures Symbols[PadId] == Pad && Symbols[1] == Special && Symbols[EosId] == Eos
    ensures forall k :: 0 <= k < |Punctuation| ==> Symbols[PunctuationBase + k] == [Punctuation[k]]
    ensures forall k :: 0 <= k < |Letters| ==> Symbols[LetterBase + k] == [Letters[k]]
    ensures forall k :: 0 <= k < |ValidSymbols| ==> Symbols[ArpabetBase + k] == "@" + ValidSymbols[k]
  {
    assert |ValidSymbols| == 84;
    assert Symbols[1] == [Special[0]] == Special;
  }

  /** The character codes of the letter and punctuation strings. */
  lemma CharacterCodes()
    ensures forall k :: 0 <= k < 26 ==> Letters[k] as int == 'A' as int + k
    ensures forall k :: 26 <= k < 52 ==> Letters[k] as int == 'a' as int + (k - 26)
    ensures Punctuation == ['!', '\'', '(', ')', ',', '.', ':', ';', '?', ' ']
  {}

  /** The position of a one-character symbol, read off its character class rather
      than searched for in the table. */
  function CharId(c: char): Option<nat> {
    if c == '_' then Some(0)
    else if c == '-' then Some(1)
    else if c == '!' then Some(2)
    else if c == '\'' then Some(3)
    else if c == '(' then Some(4)
    else if c == ')' then Some(5)
    else if c == ',' then Some(6)
    else if c == '.' then Some(7)
    else if c == ':' then Some(8)
    else if c == ';' then Some(9)
    else if c == '?' then Some(10)
    else if c == ' ' then Some(11)
    else if 'A' <= c <= 'Z' then Some(LetterBase + (c as int - 'A' as int))
    else if 'a' <= c <= 'z' then Some(LetterBase + 26 + (c as int - 'a' as int))
    else if c == '~' then Some(EosId)
    else None
  }

  /** CharId agrees with the table: the one-character entries are exactly those it
      numbers, each at the position it gives. */
  lemma CharIdInverts()
    ensures forall i :: 0 <= i < ArpabetBase || i == EosId ==>
              |Symbols[i]| == 1 && CharId(Symbols[i][0]) == Some(i)
    ensures forall c :: CharId(c).Some? ==>
              CharId(c).value < |Symbols| && Symbols[CharId(c).value] == [c]
  {
    CharIdAtEntries();
    CharIdLocates();
  }

  lemma CharIdAtEntries()
    ensures forall i :: 0 <= i < ArpabetBase || i == EosId ==>
              |Symbols[i]| == 1 && CharId(Symbols[i][0]) == Some(i)
  {
    Layout();
    LetterIds();
    PunctuationIds();
    forall i | 0 <= i < ArpabetBase || i == EosId
      ensures |Symbols[i]| == 1 && CharId(Symbols[i][0]) == Some(i)
    {
      if LetterBase <= i < ArpabetBase {
        assert Symbols[i] == [Letters[i - LetterBase]];
      } else if PunctuationBase <= i < LetterBase {
        assert Symbols[i] == [Punctuation[i - PunctuationBase]];
      }
    }
  }

  lemma LetterIds()
    ensures |Letters| == 52
    ensures forall k :: 0 <= k < |Letters| ==> CharId(Letters[k]) == Some(LetterBase + k)
  {
    CharacterCodes();
  }

  lemma PunctuationIds()
    ensures |Punctuation| == 10
    ensures forall k :: 0 <= k < |Punctuation| ==> CharId(Punctuation[k]) == Some(PunctuationBase + k)
  {
    CharacterCodes();
  }

  lemma CharIdLocates()
    ensures forall c :: CharId(c).Some? ==>
              CharId(c).value < |Symbols| && Symbols[CharId(c).value] == [c]
  {
    Layout();
    forall c | CharId(c).Some?
      ensures CharId(c).value < |Symbols| && Symbols[CharId(c).value] == [c]
    {
      var i := CharId(c).value;
      if LetterBase <= i < ArpabetBase {
        LetterLocated(c);
      } else if PunctuationBase <= i < LetterBase {
        PunctuationLocated(c);
      }
    }
  }

  lemma LetterLocated(c: char)
    requires 'A' <= c <= 'Z' || 'a' <= c <= 'z'
    ensures CharId(c).Some? && LetterBase <= CharId(c).value < ArpabetBase
    ensures Letters[CharId(c).value - LetterBase] == c
  {
    CharacterCodes();
    var k := CharId(c).value - LetterBase;
    assert Letters[k] as int == c as int;
  }

  lemma PunctuationLocated(c: char)
    requires CharId(c).Some? && PunctuationBase <= CharId(c).value < LetterBase
    ensures Punctuation[CharId(c).value - PunctuationBase] == c
  {
    CharacterCodes();
  }

  /** A sort key for the codes: their characters as base-128 digits. On strings of
      at most three ASCII characters it is the lexicographic order. */
  function Key(code: string): int {
    (if |code| > 0 then code[0] as int else 0) * 16384
    + (if |code| > 1 then code[1] as int else 0) * 128
    + (if |code| > 2 then code[2] as int else 0)
  }

  // Row0 to Row6 (and ShapeRow0 to ShapeRow6 below) each cover twelve codes: one
  // lemma over all 84 codes exceeds the verifier's resource limit.
  lemma Row0()
    ensures forall k :: 0 <= k < 12 ==> Key(ValidSymbols[k]) < Key(ValidSymbols[k + 1])
  {}

  lemma Row1()
    ensures forall k :: 12 <= k < 24 ==> Key(ValidSymbols[k]) < Key(ValidSymbols[k + 1])
  {}

  lemma Row2()
    ensures forall k :: 24 <= k < 36 ==> Key(ValidSymbols[k]) < Key(ValidSymbols[k + 1])
  {}

  lemma Row3()
    ensures forall k :: 36 <= k < 48 ==> Key(ValidSymbols[k]) < Key(ValidSymbols[k + 1])
  {}

  lemma Row4()
    ensures forall k :: 48 <= k < 60 ==> Key(ValidSymbols[k]) < Key(ValidSymbols[k + 1])
  {}

  lemma Row5()
    ensures forall k :: 60 <= k < 72 ==> Key(ValidSymbols[k]) < Key(ValidSymbols[k + 1])
  {}

  lemma Row6()
    ensures forall k :: 72 <= k < 83 ==> Key(ValidSymbols[k]) < Key(ValidSymbols[k + 1])
  {}

  /** The codes are listed in strictly increasing order, so no code occurs twice. */
  lemma {:induction false} ValidSymbolsSorted()
    ensures forall i, j :: 0 <= i < j < |ValidSymbols| ==> Key(ValidSymbols[i]) < Key(ValidSymbols[j])
  {
    assert |ValidSymbols| == 84;
    Row0(); Row1(); Row2(); Row3(); Row4(); Row5(); Row6();
    forall i, j | 0 <= i < j < |ValidSymbols|
      ensures Key(ValidSymbols[i]) < Key(ValidSymbols[j])
    {
      KeysIncrease(ValidSymbols, i, j);
    }
  }

  lemma {:induction false} KeysIncrease(codes: seq<string>, i: nat, j: nat)
    requires i < j < |codes|
    requires forall k :: 0 <= k < |codes| - 1 ==> Key(codes[k]) < Key(codes[k + 1])
    ensures Key(codes[i]) < Key(codes[j])
    decreases j - i
  {
    if i + 1 < j {
      KeysIncrease(codes, i, j - 1);
    }
  }

  /** What an ARPAbet code looks like: one to three capital letters and stress digits. */
  predicate CodeShaped(code: string) {
    1 <= |code| <= 3 && forall k :: 0 <= k < |code| ==> 'A' <= code[k] <= 'Z' || '0' <= code[k] <= '2'
  }

  lemma ShapeRow0()
    ensures forall k :: 0 <= k < 12 ==> CodeShaped(ValidSymbols[k])
  {}

  lemma ShapeRow1()
    ensures forall k :: 12 <= k < 24 ==> CodeShaped(ValidSymbols[k])
  {}

  lemma ShapeRow2()
    ensures forall k :: 24 <= k < 36 ==> CodeShaped(ValidSymbols[k])
  {}

  lemma ShapeRow3()
    ensures forall k :: 36 <= k < 48 ==> CodeShaped(ValidSymbols[k])
  {}

  lemma ShapeRow4()
    ensures forall k :: 48 <= k < 60 ==> CodeShaped(ValidSymbols[k])
  {}

  lemma ShapeRow5()
    ensures forall k :: 60 <= k < 72 ==> CodeShaped(ValidSymbols[k])
  {}

  lemma ShapeRow6()
    ensures forall k :: 72 <= k < 84 ==> CodeShaped(ValidSymbols[k])
  {}

  lemma CodesShaped()
    ensures forall k :: 0 <= k < |ValidSymbols| ==> CodeShaped(ValidSymbols[k])
  {
    assert |ValidSymbols| == 84;
    ShapeRow0(); ShapeRow1(); ShapeRow2(); ShapeRow3(); ShapeRow4(); ShapeRow5(); ShapeRow6();
  }

  /** The last code, and so the largest key. */
  lemma LastCode()
    ensures |ValidSymbols| == 84 && ValidSymbols[83] == "ZH"
    ensures Key(ValidSymbols[83]) == 'Z' as int * 16384 + 'H' as int * 128
  {
  }

  /** No symbol occurs twice in the table. */
  lemma SymbolsDistinct()
    ensures forall i, j :: 0 <= i < j < |Symbols| ==> Symbols[i] != Symbols[j]
  {
    Layout();
    forall i, j | 0 <= i < j < |Symbols|
      ensures Symbols[i] != Symbols[j]
    {
      if ArpabetBase <= i && j < EosId {
        ArpabetDistinct(i - ArpabetBase, j - ArpabetBase);
      } else if ArpabetBase <= i || ArpabetBase <= j < EosId {
        OneCharVersusArpabet(if ArpabetBase <= i then j else i, if ArpabetBase <= i then i else j);
      } else {
        CharIdInverts();
      }
    }
  }

  lemma OneCharVersusArpabet(i: nat, j: nat)
    requires i < ArpabetBase || i == EosId
    requires ArpabetBase <= j < EosId
    ensures Symbols[i] != Symbols[j]
  {
    CharIdAtEntries();
    ArpabetEntry(j);
    assert CharId(Symbols[i][0]) == Some(i);
    assert Symbols[j][0] == '@';
    assert CharId('@') == None;
  }

  lemma ArpabetEntry(j: nat)
    requires ArpabetBase <= j < EosId
    ensures j < |Symbols| && Symbols[j] == "@" + ValidSymbols[j - ArpabetBase]
  {
    Layout();
  }

  lemma ArpabetDistinct(a: nat, b: nat)
    requires a < b < |ValidSymbols|
    ensures Arpabet[a] != Arpabet[b]
  {
    ValidSymbolsSorted();
    assert ValidSymbols[a] != ValidSymbols[b];
    assert Arpabet[a][1..] == ValidSymbols[a];
    assert Arpabet[b][1..] == ValidSymbols[b];
  }

  /** `_symbol_to_id`: each symbol of the table to its position. */
  function SymbolToId(): (m: map<string, nat>)
    ensures forall i :: 0 <= i < |Symbols| ==> Symbols[i] in m && m[Symbols[i]] == i
    ensures forall s :: s in m ==> m[s] < |Symbols| && Symbols[m[s]] == s
  {
    SymbolsDistinct();
    map i | 0 <= i < |Symbols| :: Symbols[i] := i
  }

  /** `_id_to_symbol`: each position of the table to its symbol; the inverse of
      SymbolToId. */
  function IdToSymbol(): (m: map<nat, string>)
    ensures forall i: nat :: i in m <==> i < |Symbols|
    ensures forall s :: s in SymbolToId() ==> SymbolToId()[s] in m && m[SymbolToId()[s]] == s
    ensures forall i :: i in m ==> m[i] in SymbolToId() && SymbolToId()[m[i]] == i
  {
    map i: nat | i < |Symbols| :: Symbols[i]
  }
}
