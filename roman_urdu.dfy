/** The Roman-Urdu transliterator: `ROMAN_TO_URDU` and `roman_urdu_to_urdu_text`.
    The text is rewritten with every table key that occurs in the lower-cased
    original, longest keys first, and every `?` finally becomes the Urdu question
    mark. */
module RomanUrdu {
  import opened Rewrite
  import opened KeyOrder

  // `ROMAN_TO_URDU`, entry by entry in the order of the dictionary literal,
  // in groups of source lines. The source file stores its Urdu text doubly
  // encoded (UTF-8 bytes read back as Windows-1252, with the bytes that code
  // page leaves undefined dropped), so the values, three of the keys and the
  // question mark are spelled here with exactly the code points the file holds.

  /** Single letters, roman_urdu.py:9-11. */
  const LettersA: seq<Entry> := [
    // roman_urdu.py:9
    ("a", "\U{00D8}\U{00A7}"),
    ("b", "\U{00D8}\U{00A8}"),
    ("p", "\U{00D9}\U{00BE}"),
    ("t", "\U{00D8}\U{00AA}"),
    ("\U{00E1}\U{00B9}\U{00AD}", "\U{00D9}\U{00B9}"),
    // roman_urdu.py:10
    ("s", "\U{00D8}\U{00B3}"),
    ("j", "\U{00D8}\U{00AC}"),
    ("ch", "\U{00DA}\U{2020}"),
    ("h", "\U{00D8}\U{00AD}"),
    ("kh", "\U{00D8}\U{00AE}"),
    // roman_urdu.py:11
    ("d", "\U{00D8}\U{00AF}"),
    ("\U{00E1}\U{00B8}", "\U{00DA}\U{02C6}"),
    ("r", "\U{00D8}\U{00B1}"),
    ("\U{00E1}\U{00B9}\U{203A}", "\U{00DA}\U{2018}"),
    ("z", "\U{00D8}\U{00B2}")
  ]

  /** Single letters, roman_urdu.py:12-14. */
  const LettersB: seq<Entry> := [
    // roman_urdu.py:12
    ("zh", "\U{00DA}\U{02DC}"),
    ("sh", "\U{00D8}\U{00B4}"),
    ("gh", "\U{00D8}\U{00BA}"),
    ("f", "\U{00D9}"),
    ("q", "\U{00D9}\U{201A}"),
    // roman_urdu.py:13
    ("k", "\U{00DA}\U{00A9}"),
    ("g", "\U{00DA}\U{00AF}"),
    ("l", "\U{00D9}\U{201E}"),
    ("m", "\U{00D9}\U{2026}"),
    ("n", "\U{00D9}\U{2020}"),
    // roman_urdu.py:14
    ("v", "\U{00D9}\U{02C6}"),
    ("y", "\U{00DB}\U{0152}"),
    ("e", "\U{00DB}\U{2019}"),
    ("o", "\U{00D9}\U{02C6}"),
    ("i", "\U{00DB}\U{0152}")
  ]

  /** Common words, roman_urdu.py:17-29. */
  const WordsA: seq<Entry> := [
    // roman_urdu.py:17
    ("salam", "\U{00D8}\U{00B3}\U{00D9}\U{201E}\U{00D8}\U{00A7}\U{00D9}\U{2026}"),
    // roman_urdu.py:18
    ("assalamualaikum", "\U{00D8}\U{00A7}\U{00D9}\U{201E}\U{00D8}\U{00B3}\U{00D9}\U{201E}\U{00D8}\U{00A7}\U{00D9}\U{2026}\U{0020}\U{00D8}\U{00B9}\U{00D9}\U{201E}\U{00DB}\U{0152}\U{00DA}\U{00A9}\U{00D9}\U{2026}"),
    // roman_urdu.py:19
    ("aap", "\U{00D8}\U{00A2}\U{00D9}\U{00BE}"),
    // roman_urdu.py:20
    ("tum", "\U{00D8}\U{00AA}\U{00D9}\U{2026}"),
    // roman_urdu.py:21
    ("main", "\U{00D9}\U{2026}\U{00DB}\U{0152}\U{00DA}\U{00BA}"),
    // roman_urdu.py:22
    ("wo", "\U{00D9}\U{02C6}\U{00DB}"),
    // roman_urdu.py:23
    ("ye", "\U{00DB}\U{0152}\U{00DB}"),
    // roman_urdu.py:24
    ("ka", "\U{00DA}\U{00A9}\U{00D8}\U{00A7}"),
    // roman_urdu.py:25
    ("ki", "\U{00DA}\U{00A9}\U{00DB}\U{0152}"),
    // roman_urdu.py:26
    ("ke", "\U{00DA}\U{00A9}\U{00DB}\U{2019}"),
    // roman_urdu.py:27
    ("ko", "\U{00DA}\U{00A9}\U{00D9}\U{02C6}"),
    // roman_urdu.py:28
    ("se", "\U{00D8}\U{00B3}\U{00DB}\U{2019}"),
    // roman_urdu.py:29
    ("mein", "\U{00D9}\U{2026}\U{00DB}\U{0152}\U{00DA}\U{00BA}")
  ]

  /** Common words, roman_urdu.py:30-42. */
  const WordsB: seq<Entry> := [
    // roman_urdu.py:30
    ("par", "\U{00D9}\U{00BE}\U{00D8}\U{00B1}"),
    // roman_urdu.py:31
    ("hai", "\U{00DB}\U{00DB}\U{2019}"),
    // roman_urdu.py:32
    ("hain", "\U{00DB}\U{00DB}\U{0152}\U{00DA}\U{00BA}"),
    // roman_urdu.py:33
    ("ho", "\U{00DB}\U{00D9}\U{02C6}"),
    // roman_urdu.py:34
    ("hun", "\U{00DB}\U{00D9}\U{02C6}\U{00DA}\U{00BA}"),
    // roman_urdu.py:35
    ("tha", "\U{00D8}\U{00AA}\U{00DA}\U{00BE}\U{00D8}\U{00A7}"),
    // roman_urdu.py:36
    ("thi", "\U{00D8}\U{00AA}\U{00DA}\U{00BE}\U{00DB}\U{0152}"),
    // roman_urdu.py:37
    ("the", "\U{00D8}\U{00AA}\U{00DA}\U{00BE}\U{00DB}\U{2019}"),
    // roman_urdu.py:38
    ("na", "\U{00D9}\U{2020}\U{00DB}"),
    // roman_urdu.py:39
    ("bhi", "\U{00D8}\U{00A8}\U{00DA}\U{00BE}\U{00DB}\U{0152}"),
    // roman_urdu.py:40
    ("to", "\U{00D8}\U{00AA}\U{00D9}\U{02C6}"),
    // roman_urdu.py:41
    ("agar", "\U{00D8}\U{00A7}\U{00DA}\U{00AF}\U{00D8}\U{00B1}"),
    // roman_urdu.py:42
    ("kyun", "\U{00DA}\U{00A9}\U{00DB}\U{0152}\U{00D9}\U{02C6}\U{00DA}\U{00BA}")
  ]

  /** Common words, roman_urdu.py:43-55. */
  const WordsC: seq<Entry> := [
    // roman_urdu.py:43
    ("kya", "\U{00DA}\U{00A9}\U{00DB}\U{0152}\U{00D8}\U{00A7}"),
    // roman_urdu.py:44
    ("kaise", "\U{00DA}\U{00A9}\U{00DB}\U{0152}\U{00D8}\U{00B3}\U{00DB}\U{2019}"),
    // roman_urdu.py:45
    ("kitna", "\U{00DA}\U{00A9}\U{00D8}\U{00AA}\U{00D9}\U{2020}\U{00D8}\U{00A7}"),
    // roman_urdu.py:46
    ("kahan", "\U{00DA}\U{00A9}\U{00DB}\U{00D8}\U{00A7}\U{00DA}\U{00BA}"),
    // roman_urdu.py:47
    ("kab", "\U{00DA}\U{00A9}\U{00D8}\U{00A8}"),
    // roman_urdu.py:48
    ("mera", "\U{00D9}\U{2026}\U{00DB}\U{0152}\U{00D8}\U{00B1}\U{00D8}\U{00A7}"),
    // roman_urdu.py:49
    ("meri", "\U{00D9}\U{2026}\U{00DB}\U{0152}\U{00D8}\U{00B1}\U{00DB}\U{0152}"),
    // roman_urdu.py:50
    ("hamara", "\U{00DB}\U{00D9}\U{2026}\U{00D8}\U{00A7}\U{00D8}\U{00B1}\U{00D8}\U{00A7}"),
    // roman_urdu.py:51
    ("tera", "\U{00D8}\U{00AA}\U{00DB}\U{0152}\U{00D8}\U{00B1}\U{00D8}\U{00A7}"),
    // roman_urdu.py:52
    ("teri", "\U{00D8}\U{00AA}\U{00DB}\U{0152}\U{00D8}\U{00B1}\U{00DB}\U{0152}"),
    // roman_urdu.py:53
    ("allah", "\U{00D8}\U{00A7}\U{00D9}\U{201E}\U{00D9}\U{201E}\U{00DB}"),
    // roman_urdu.py:54
    ("khuda", "\U{00D8}\U{00AE}\U{00D8}\U{00AF}\U{00D8}\U{00A7}"),
    // roman_urdu.py:55
    ("shukriya", "\U{00D8}\U{00B4}\U{00DA}\U{00A9}\U{00D8}\U{00B1}\U{00DB}\U{0152}\U{00DB}")
  ]

  /** Common words, roman_urdu.py:56-68. */
  const WordsD: seq<Entry> := [
    // roman_urdu.py:56
    ("meherbani", "\U{00D9}\U{2026}\U{00DB}\U{00D8}\U{00B1}\U{00D8}\U{00A8}\U{00D8}\U{00A7}\U{00D9}\U{2020}\U{00DB}\U{0152}"),
    // roman_urdu.py:57
    ("maaf", "\U{00D9}\U{2026}\U{00D8}\U{00B9}\U{00D8}\U{00A7}\U{00D9}"),
    // roman_urdu.py:58
    ("ji", "\U{00D8}\U{00AC}\U{00DB}\U{0152}"),
    // roman_urdu.py:59
    ("han", "\U{00DB}\U{00D8}\U{00A7}\U{00DA}\U{00BA}"),
    // roman_urdu.py:60
    ("nahi", "\U{00D9}\U{2020}\U{00DB}\U{00DB}\U{0152}\U{00DA}\U{00BA}"),
    // roman_urdu.py:61
    ("acha", "\U{00D8}\U{00A7}\U{00DA}\U{2020}\U{00DA}\U{00BE}\U{00D8}\U{00A7}"),
    // roman_urdu.py:62
    ("theek", "\U{00D9}\U{00B9}\U{00DA}\U{00BE}\U{00DB}\U{0152}\U{00DA}\U{00A9}"),
    // roman_urdu.py:63
    ("insaan", "\U{00D8}\U{00A7}\U{00D9}\U{2020}\U{00D8}\U{00B3}\U{00D8}\U{00A7}\U{00D9}\U{2020}"),
    // roman_urdu.py:64
    ("duniya", "\U{00D8}\U{00AF}\U{00D9}\U{2020}\U{00DB}\U{0152}\U{00D8}\U{00A7}"),
    // roman_urdu.py:65
    ("pyar", "\U{00D9}\U{00BE}\U{00DB}\U{0152}\U{00D8}\U{00A7}\U{00D8}\U{00B1}"),
    // roman_urdu.py:66
    ("mohabbat", "\U{00D9}\U{2026}\U{00D8}\U{00AD}\U{00D8}\U{00A8}\U{00D8}\U{00AA}"),
    // roman_urdu.py:67
    ("dost", "\U{00D8}\U{00AF}\U{00D9}\U{02C6}\U{00D8}\U{00B3}\U{00D8}\U{00AA}"),
    // roman_urdu.py:68
    ("yaar", "\U{00DB}\U{0152}\U{00D8}\U{00A7}\U{00D8}\U{00B1}")
  ]

  /** Digits, roman_urdu.py:71-72. */
  const Digits: seq<Entry> := [
    // roman_urdu.py:71
    ("0", "\U{00DB}\U{00B0}"),
    ("1", "\U{00DB}\U{00B1}"),
    ("2", "\U{00DB}\U{00B2}"),
    ("3", "\U{00DB}\U{00B3}"),
    ("4", "\U{00DB}\U{00B4}"),
    // roman_urdu.py:72
    ("5", "\U{00DB}\U{00B5}"),
    ("6", "\U{00DB}\U{00B6}"),
    ("7", "\U{00DB}\U{00B7}"),
    ("8", "\U{00DB}\U{00B8}"),
    ("9", "\U{00DB}\U{00B9}")
  ]

  /** The whole table, in dictionary order. */
  const Table: seq<Entry> := LettersA + LettersB + WordsA + WordsB + WordsC + WordsD + Digits

  /** The replacement for `?`, as the file spells it. */
  const UrduQuestionMark: string := "\U{00D8}\U{0178}"

  /** A character that can start a key: an ASCII lower-case letter or digit, or
      the first code point of the three doubly encoded dotted letters. */
  predicate RomanInitial(c: char)
  {
    'a' <= c <= 'z' || '0' <= c <= '9' || c == '\U{00E1}'
  }

  /** A character that can appear in a key. */
  predicate RomanChar(c: char)
  {
    RomanInitial(c) || c == '\U{00AD}' || c == '\U{00B8}' || c == '\U{00B9}' || c == '\U{203A}'
  }

  /** A character that can appear in a value: a space or a doubly encoded Urdu
      byte (a lead byte 0xD8-0xDB, or a continuation byte read through
      Windows-1252); never a letter that folds to an ASCII letter or digit, nor
      to the first code point of a key. */
  predicate UrduChar(c: char)
  {
    c == ' ' || '\U{00A0}' <= c <= '\U{00BF}' || '\U{00D8}' <= c <= '\U{00DB}' || '\U{0100}' <= c
  }

  predicate RomanKey(k: string)
  {
    k != [] && RomanInitial(k[0]) && forall j :: 0 <= j < |k| ==> RomanChar(k[j])
  }

  /** A value starts with the lead byte of an Arabic-script letter. */
  predicate UrduValue(v: string)
  {
    v != [] && '\U{00D8}' <= v[0] <= '\U{00DB}' && forall j :: 0 <= j < |v| ==> UrduChar(v[j])
  }

  predicate RomanKeys(es: seq<Entry>)
  {
    forall i :: 0 <= i < |es| ==> RomanKey(es[i].0)
  }

  predicate UrduValues(es: seq<Entry>)
  {
    forall i :: 0 <= i < |es| ==> UrduValue(es[i].1)
  }

  lemma LettersAKeys()
    ensures RomanKeys(LettersA)
  {
  }

  lemma LettersAValues()
    ensures UrduValues(LettersA)
  {
  }

  lemma LettersBKeys()
    ensures RomanKeys(LettersB)
  {
  }

  lemma LettersBValues()
    ensures UrduValues(LettersB)
  {
  }

  lemma WordsAKeys()
    ensures RomanKeys(WordsA)
  {
  }

  lemma WordsAValues()
    ensures UrduValues(WordsA)
  {
  }

  lemma WordsBKeys()
    ensures RomanKeys(WordsB)
  {
  }

  lemma WordsBValues()
    ensures UrduValues(WordsB)
  {
  }

  lemma WordsCKeys()
    ensures RomanKeys(WordsC)
  {
  }

  lemma WordsCValues()
    ensures UrduValues(WordsC)
  {
  }

  lemma WordsDKeys()
    ensures RomanKeys(WordsD)
  {
  }

  lemma WordsDValues()
    ensures UrduValues(WordsD)
  {
  }

  lemma DigitsKeys()
    ensures RomanKeys(Digits)
  {
  }

  lemma DigitsValues()
    ensures UrduValues(Digits)
  {
  }

  /** Spelling is checked group by group and carries over to the concatenation. */
  lemma SpelledConcat(a: seq<Entry>, b: seq<Entry>)
    requires RomanKeys(a) && UrduValues(a) && RomanKeys(b) && UrduValues(b)
    ensures RomanKeys(a + b) && UrduValues(a + b)
  {
    forall i | 0 <= i < |a + b|
      ensures RomanKey((a + b)[i].0) && UrduValue((a + b)[i].1)
    {
      if i < |a| {
        assert (a + b)[i] == a[i];
      } else {
        assert (a + b)[i] == b[i - |a|];
      }
    }
  }

  /** Every key of the table is spelled in the key alphabet, every value in the
      value alphabet. */
  lemma TableSpelled()
    ensures RomanKeys(Table) && UrduValues(Table)
  {
    LettersAKeys(); LettersAValues();
    LettersBKeys(); LettersBValues();
    WordsAKeys(); WordsAValues();
    WordsBKeys(); WordsBValues();
    WordsCKeys(); WordsCValues();
    WordsDKeys(); WordsDValues();
    DigitsKeys(); DigitsValues();
    SpelledConcat(LettersA, LettersB);
    SpelledConcat(LettersA + LettersB, WordsA);
    SpelledConcat(LettersA + LettersB + WordsA, WordsB);
    SpelledConcat(LettersA + LettersB + WordsA + WordsB, WordsC);
    SpelledConcat(LettersA + LettersB + WordsA + WordsB + WordsC, WordsD);
    SpelledConcat(LettersA + LettersB + WordsA + WordsB + WordsC + WordsD, Digits);
  }

  /** A key and value so spelled are lower-case, and the value can never
      re-create the key it replaces. */
  lemma SpelledWellFormed(k: string, v: string)
    requires RomanKey(k) && UrduValue(v)
    ensures IsLowerCase(k) && NoRecur(k, v)
  {
    forall j | 0 <= j < |k|
      ensures Fold(k[j]) == k[j] && (j >= 1 ==> Fold(k[j]) != Fold(v[0]))
    {
      assert RomanChar(k[j]);
    }
    forall c | c in v
      ensures Fold(c) != Fold(k[0])
    {
      var j :| 0 <= j < |v| && v[j] == c;
      assert UrduChar(v[j]);
    }
  }

  /** What the conversion relies on about one entry. */
  predicate WellFormedEntry(e: Entry)
  {
    RomanKey(e.0) && UrduValue(e.1) && IsLowerCase(e.0) && NoRecur(e.0, e.1)
  }

  predicate WellFormedEntries(es: seq<Entry>)
  {
    forall e :: e in es ==> WellFormedEntry(e)
  }

  /** Spelled entries are well formed. */
  lemma SpelledEntries(es: seq<Entry>)
    requires RomanKeys(es) && UrduValues(es)
    ensures WellFormedEntries(es)
  {
    forall e | e in es
      ensures WellFormedEntry(e)
    {
      var i :| 0 <= i < |es| && es[i] == e;
      SpelledWellFormed(e.0, e.1);
    }
  }

  /** Every entry of the table is well formed. */
  lemma TableWellFormed()
    ensures WellFormedEntries(Table)
  {
    TableSpelled();
    SpelledEntries(Table);
  }

  /** Every key is non-empty, so each step is a well-defined substitution. */
  predicate NonEmptyKeys(es: seq<Entry>)
  {
    forall i :: 0 <= i < |es| ==> es[i].0 != []
  }

  lemma WellFormedNonEmpty(es: seq<Entry>)
    requires WellFormedEntries(es)
    ensures NonEmptyKeys(es)
  {
    forall i | 0 <= i < |es|
      ensures es[i].0 != []
    {
      assert es[i] in es;
    }
  }

  /** One turn of the loop over the sorted keys: the key is looked for in the
      lower-cased ORIGINAL text, never in the partly converted one, and when it
      is there every case-insensitive occurrence in the current text is
      replaced. */
  function Step(e: Entry, lowered: string, current: string): string
    requires e.0 != []
  {
    if Contains(lowered, e.0) then ReplaceAll(e.0, e.1, current) else current
  }

  /** The loop over `es`, from `current` on. */
  function Steps(es: seq<Entry>, lowered: string, current: string): string
    requires NonEmptyKeys(es)
  {
    if es == [] then current else Steps(es[1..], lowered, Step(es[0], lowered, current))
  }

  /** Helper: the loop from position `i` is one step, then the loop from
      `i + 1`. */
  lemma StepsUnfold(es: seq<Entry>, i: nat, lowered: string, current: string)
    requires i < |es| && NonEmptyKeys(es[i..])
    ensures NonEmptyKeys(es[i + 1..])
    ensures Steps(es[i..], lowered, current) == Steps(es[i + 1..], lowered, Step(es[i], lowered, current))
  {
    assert es[i..][0] == es[i];
    assert es[i..][1..] == es[i + 1..];
  }

  /** The last step, `replace('?', ...)`: no `?` is left, and text without one
      is unchanged. */
  function UrduPunctuation(s: string): (r: string)
    ensures '?' !in r
    ensures '?' !in s ==> r == s
  {
    ReplaceCharRemoves(s, '?', UrduQuestionMark);
    ReplaceCharIdle(s, '?', UrduQuestionMark);
    ReplaceChar(s, '?', UrduQuestionMark)
  }

  /** Every `?` becomes the Urdu question mark and every other character stays
      as it is, each on its own. */
  lemma UrduPunctuationPerCharacter(a: string, b: string, c: char)
    ensures UrduPunctuation(a + b) == UrduPunctuation(a) + UrduPunctuation(b)
    ensures UrduPunctuation(['?']) == UrduQuestionMark
    ensures c != '?' ==> UrduPunctuation([c]) == [c]
  {
    ReplaceCharConcat(a, b, '?', UrduQuestionMark);
    ReplaceCharSingle('?', '?', UrduQuestionMark);
    ReplaceCharSingle(c, '?', UrduQuestionMark);
  }

  /** The conversion with a given dictionary: empty text is returned as is;
      otherwise the keys are tried longest first, then `?` is replaced. */
  function TransliterateWith(table: seq<Entry>, text: string): (r: string)
    requires WellFormedEntries(table)
    ensures text == [] ==> r == text
    ensures '?' !in r
  {
    if text == [] then text
    else
      var keys := SortByKeyLength(table);
      SortedMembers(table);
      WellFormedNonEmpty(keys);
      UrduPunctuation(Steps(keys, Lower(text), text))
  }

  /** `roman_urdu_to_urdu_text` as a function of its input. */
  function Transliterate(text: string): (r: string)
    ensures text == [] ==> r == text
    ensures '?' !in r
  {
    TableWellFormed();
    TransliterateWith(Table, text)
  }

  /** The loop of the source over the sorted keys, then the question marks,
      for a given dictionary. */
  method ConvertWith(table: seq<Entry>, text: string) returns (urdu: string)
    requires WellFormedEntries(table)
    ensures urdu == TransliterateWith(table, text)
  {
    if text == [] {
      return text;
    }
    var lowered := Lower(text);
    var keys := SortByKeyLength(table);
    SortedMembers(table);
    WellFormedNonEmpty(keys);
    urdu := text;
    var i := 0;
    assert keys[0..] == keys;
    while i < |keys|
      invariant 0 <= i <= |keys|
      invariant NonEmptyKeys(keys[i..])
      invariant Steps(keys, lowered, text) == Steps(keys[i..], lowered, urdu)
    {
      var e := keys[i];
      StepsUnfold(keys, i, lowered, urdu);
      if Contains(lowered, e.0) {
        urdu := ReplaceAll(e.0, e.1, urdu);
      }
      i := i + 1;
    }
    urdu := UrduPunctuation(urdu);
  }

  /** The converter over `ROMAN_TO_URDU`. */
  method RomanUrduToUrduText(text: string) returns (urdu: string)
    ensures urdu == Transliterate(text)
  {
    TableWellFormed();
    urdu := ConvertWith(Table, text);
  }

  /** The gate `roman in text_lower` is exactly a case-insensitive occurrence
      of the key in the original text; a key that occurs is replaced and then
      occurs no more, a key that does not leaves the text as it was. */
  lemma StepEffect(e: Entry, text: string, current: string)
    requires WellFormedEntry(e)
    ensures !Occurs(text, e.0) ==> Step(e, Lower(text), current) == current
    ensures Occurs(text, e.0) ==> Step(e, Lower(text), current) == ReplaceAll(e.0, e.1, current)
    ensures Occurs(text, e.0) ==> !Occurs(Step(e, Lower(text), current), e.0)
  {
    ContainsLowerIffOccurs(text, e.0);
    if Occurs(text, e.0) {
      ReplaceAllRemovesKey(e.0, e.1, current);
    }
  }

  /** Keys absent from the lowered text leave every step idle. */
  lemma {:induction false} StepsIdle(es: seq<Entry>, lowered: string, current: string)
    requires NonEmptyKeys(es)
    requires forall i :: 0 <= i < |es| ==> !Contains(lowered, es[i].0)
    ensures Steps(es, lowered, current) == current
  {
    if es != [] {
      StepsIdle(es[1..], lowered, current);
    }
  }

  /** Text holding no ASCII letter or digit (nor the lead code point of a
      doubly encoded key) matches no key: only its question marks change. */
  lemma NoRomanLettersWith(table: seq<Entry>, text: string)
    requires WellFormedEntries(table)
    requires forall i :: 0 <= i < |text| ==> !RomanInitial(Fold(text[i]))
    ensures TransliterateWith(table, text) == UrduPunctuation(text)
  {
    if text != [] {
      var keys := SortByKeyLength(table);
      SortedMembers(table);
      WellFormedNonEmpty(keys);
      forall i | 0 <= i < |keys|
        ensures !Contains(Lower(text), keys[i].0)
      {
        var k := keys[i].0;
        assert keys[i] in table;
        assert RomanInitial(k[0]);
        forall p: nat | p <= |text|
          ensures !MatchAt(text, p, k)
        {
          if p < |text| {
            assert !RomanInitial(Fold(text[p]));
          }
        }
        ContainsLowerIffOccurs(text, k);
      }
      StepsIdle(keys, Lower(text), text);
    }
  }

  /** The same for `ROMAN_TO_URDU`: Urdu script, punctuation and spaces pass
      through, and only `?` is rewritten. */
  lemma NoRomanLetters(text: string)
    requires forall i :: 0 <= i < |text| ==> !RomanInitial(Fold(text[i]))
    ensures Transliterate(text) == UrduPunctuation(text)
  {
    TableWellFormed();
    NoRomanLettersWith(Table, text);
  }

  /** The gate of the loop as a filter on entries: the key occurs in `text`,
      up to ASCII case. */
  function Occurring(text: string): Entry -> bool
  {
    (e: Entry) => Occurs(text, e.0)
  }

  /** Skipping the entries the gate rejects changes nothing. */
  lemma {:induction false} StepsOccurring(es: seq<Entry>, text: string, current: string)
    requires WellFormedEntries(es)
    ensures WellFormedEntries(Keep(es, Occurring(text)))
    ensures NonEmptyKeys(es) && NonEmptyKeys(Keep(es, Occurring(text)))
    ensures Steps(Keep(es, Occurring(text)), Lower(text), current) == Steps(es, Lower(text), current)
  {
    var p := Occurring(text);
    var kept := Keep(es, p);
    WellFormedNonEmpty(es);
    WellFormedNonEmpty(kept);
    if es != [] {
      var e := es[0];
      assert e in es;
      WellFormedNonEmpty(Keep(es[1..], p));
      ContainsLowerIffOccurs(text, e.0);
      if p(e) {
        assert kept == [e] + Keep(es[1..], p);
        assert kept[0] == e && kept[1..] == Keep(es[1..], p);
        StepsOccurring(es[1..], text, Step(e, Lower(text), current));
      } else {
        assert kept == Keep(es[1..], p);
        StepsOccurring(es[1..], text, current);
      }
    }
  }

  /** Only the keys found in the text matter: converting with the dictionary
      cut down to them gives the same result. */
  lemma OnlyOccurringKeys(table: seq<Entry>, text: string)
    requires WellFormedEntries(table)
    ensures WellFormedEntries(Keep(table, Occurring(text)))
    ensures TransliterateWith(Keep(table, Occurring(text)), text) == TransliterateWith(table, text)
  {
    var keys := SortByKeyLength(table);
    SortedMembers(table);
    SortKeep(table, Occurring(text));
    StepsOccurring(keys, text, text);
  }

  /** Helper: a filter that rejects every entry keeps nothing. */
  lemma KeepNone(es: seq<Entry>, p: Entry -> bool)
    requires forall e :: e in es ==> !p(e)
    ensures Keep(es, p) == []
  {
    if Keep(es, p) != [] {
      assert Keep(es, p)[0] in Keep(es, p);
    }
  }

  /** Text in which no key occurs, up to case, comes back with only its
      question marks replaced. */
  lemma NoKeyOccursWith(table: seq<Entry>, text: string)
    requires WellFormedEntries(table)
    requires forall e :: e in table ==> !Occurs(text, e.0)
    ensures TransliterateWith(table, text) == UrduPunctuation(text)
  {
    OnlyOccurringKeys(table, text);
    KeepNone(table, Occurring(text));
    assert SortByKeyLength([]) == [];
  }

  /** The same for `ROMAN_TO_URDU`. */
  lemma NoKeyOccurs(text: string)
    requires forall e :: e in Table ==> !Occurs(text, e.0)
    ensures Transliterate(text) == UrduPunctuation(text)
  {
    TableWellFormed();
    NoKeyOccursWith(Table, text);
  }

  /** Helper: the first position of `x` in `s`. */
  function FirstIndex(s: seq<Entry>, x: Entry): (i: nat)
    requires x in s
    ensures i < |s| && s[i] == x
    ensures forall j :: 0 <= j < i ==> s[j] != x
  {
    if s[0] == x then 0 else 1 + FirstIndex(s[1..], x)
  }

  /** Helper: steps whose keys are not found leave the loop to start later. */
  lemma {:induction false} StepsSkip(es: seq<Entry>, n: nat, lowered: string, current: string)
    requires n <= |es| && NonEmptyKeys(es)
    requires forall i :: 0 <= i < n ==> !Contains(lowered, es[i].0)
    ensures NonEmptyKeys(es[n..])
    ensures Steps(es, lowered, current) == Steps(es[n..], lowered, current)
  {
    if n > 0 {
      assert es[0..] == es;
      StepsUnfold(es, 0, lowered, current);
      StepsSkip(es[1..], n - 1, lowered, current);
      assert es[1..][n - 1..] == es[n..];
    } else {
      assert es[0..] == es;
    }
  }

  /** Helper: no key occurs in Urdu-script text. */
  lemma UrduHasNoKey(k: string, v: string)
    requires RomanKey(k)
    requires forall i :: 0 <= i < |v| ==> UrduChar(v[i])
    ensures !Occurs(v, k)
  {
    forall p: nat | p <= |v|
      ensures !MatchAt(v, p, k)
    {
      if p < |v| {
        assert UrduChar(v[p]) && RomanInitial(k[0]);
      }
    }
  }

  /** Helper: once the text is Urdu script, the rest of the loop leaves it
      alone. */
  lemma {:induction false} StepsKeepUrdu(es: seq<Entry>, lowered: string, v: string)
    requires WellFormedEntries(es) && NonEmptyKeys(es)
    requires forall i :: 0 <= i < |v| ==> UrduChar(v[i])
    ensures Steps(es, lowered, v) == v
  {
    if es != [] {
      var e := es[0];
      assert e in es;
      UrduHasNoKey(e.0, v);
      ReplaceAllNoMatch(e.0, e.1, v);
      assert Step(e, lowered, v) == v;
      StepsKeepUrdu(es[1..], lowered, v);
    }
  }

  /** Helper: a whole key is replaced by its value. */
  lemma WholeKeyStep(e: Entry)
    requires WellFormedEntry(e)
    ensures Step(e, Lower(e.0), e.0) == e.1
  {
    var k := e.0;
    assert MatchAt(k, 0, k);
    StepEffect(e, k, k);
    CutFront(k, e.1, k);
    assert k[|k|..] == [];
  }

  /** Longest first: a key given as the whole text becomes its value, as long
      as no other key at least as long occurs in it. The shorter keys inside
      it are tried only after it has been replaced, and find no Roman letter
      left. */
  lemma WholeKeyWins(table: seq<Entry>, e: Entry)
    requires WellFormedEntries(table) && e in table
    requires forall e' :: e' in table && e' != e && |e'.0| >= |e.0| ==> !Occurs(e.0, e'.0)
    ensures TransliterateWith(table, e.0) == e.1
  {
    var k := e.0;
    var lowered := Lower(k);
    var keys := SortByKeyLength(table);
    SortedMembers(table);
    WellFormedNonEmpty(keys);
    var n := FirstIndex(keys, e);
    forall i | 0 <= i < n
      ensures !Contains(lowered, keys[i].0)
    {
      assert keys[i] in table;
      ContainsLowerIffOccurs(k, keys[i].0);
    }
    StepsSkip(keys, n, lowered, k);
    StepsUnfold(keys, n, lowered, k);
    WholeKeyStep(e);
    assert WellFormedEntries(keys[n + 1..]) by {
      forall x | x in keys[n + 1..]
        ensures x in table
      {
        var i :| n + 1 <= i < |keys| && keys[i] == x;
      }
    }
    StepsKeepUrdu(keys[n + 1..], lowered, e.1);
  }

  /** The same for `ROMAN_TO_URDU`: a Roman word that is a key, and in which
      no other key at least as long occurs, becomes its Urdu value. */
  lemma WholeWord(e: Entry)
    requires e in Table
    requires forall e' :: e' in Table && e' != e && |e'.0| >= |e.0| ==> !Occurs(e.0, e'.0)
    ensures Transliterate(e.0) == e.1
  {
    TableWellFormed();
    WholeKeyWins(Table, e);
  }
}
