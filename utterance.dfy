/** The voice assistant's reading of one spoken utterance: the normalizer, the
    yes/no and intent detectors, the Arabic test, the price scanner, the value
    cleaner and the keyword field choice (src/voice_assistant.py:86-141 and
    189-201). */
module Utterance {
  import opened Wrappers
  import opened Chars
  import opened Text
  import opened MenuModel
  import Numbers

  // ---------------------------------------------------------------------------
  // Normalizer

  /** What `re.sub(r"[^\w\s\u0600-\u06ff]", " ", text.lower())` makes of one
      character: its lower-case form when that is a word character, whitespace
      or in the Arabic block, and a space otherwise. */
  function Blank(c: char): char
  {
    var l := Lower(c);
    if IsWordChar(l) || IsSpace(l) || InArabicBlock(l) then l else ' '
  }

  function BlankAll(s: string): (r: string)
    ensures |r| == |s| && forall i :: 0 <= i < |s| ==> r[i] == Blank(s[i])
  {
    seq(|s|, i requires 0 <= i < |s| => Blank(s[i]))
  }

  /** `_normalize_text`: lower-cased, every character outside `\w`, `\s` and
      the Arabic block turned into a space, stripped, and every whitespace run
      collapsed to one space. */
  function Normalize(s: string): string
  {
    CollapseSpaces(Strip(BlankAll(s)))
  }

  /** A character the normalizer keeps as it is: not whitespace, lower-case,
      and a word character or in the Arabic block. */
  predicate Normal(c: char)
  {
    !IsSpace(c) && Blank(c) == c
  }

  lemma BlankIsNormalOrSpace(c: char)
    ensures IsSpace(Blank(c)) || Normal(Blank(c))
    ensures IsSpace(c) ==> IsSpace(Blank(c))
  {
  }

  /** The normalized text is the words of the blanked text joined by single spaces. */
  lemma NormalizeIsJoinedWords(s: string)
    ensures Normalize(s) == JoinWords(Split(BlankAll(s)))
  {
    CollapseStripIsJoinSplit(BlankAll(s));
  }

  /** The normalizer's output has no whitespace at either end, no whitespace
      but the plain space, no two spaces in a row, and otherwise only
      lower-case word characters and Arabic-block characters. */
  lemma NormalizeShape(s: string)
    ensures SingleSpaced(Normalize(s))
    ensures forall i :: 0 <= i < |Normalize(s)| ==> Normalize(s)[i] == ' ' || Normal(Normalize(s)[i])
  {
    var b := BlankAll(s);
    NormalizeIsJoinedWords(s);
    JoinWordsShape(Split(b));
    assert NonSpaceSatisfy(b, Normal) by {
      forall i | 0 <= i < |b| && !IsSpace(b[i])
        ensures Normal(b[i])
      {
        BlankIsNormalOrSpace(s[i]);
      }
    }
    SplitChars(b, Normal);
    JoinChars(Split(b), Normal);
  }

  /** The normalized text is empty exactly when the blanked text is all whitespace. */
  lemma NormalizeEmptyIff(s: string)
    ensures (Normalize(s) == []) == AllSpace(BlankAll(s))
  {
    NormalizeIsJoinedWords(s);
    JoinWordsShape(Split(BlankAll(s)));
    SplitEmptyIffBlank(BlankAll(s));
  }

  /** A text whose normalized form is not empty has something left after `strip()`. */
  lemma NormalizedNonEmptyHasContent(s: string)
    requires Normalize(s) != []
    ensures Strip(s) != []
  {
    NormalizeEmptyIff(s);
    StripEmptyIffBlank(s);
  }

  /** Normalizing twice is normalizing once. */
  lemma NormalizeIdempotent(s: string)
    ensures Normalize(Normalize(s)) == Normalize(s)
  {
    var r := Normalize(s);
    NormalizeShape(s);
    assert BlankAll(r) == r by {
      forall i | 0 <= i < |r|
        ensures BlankAll(r)[i] == r[i]
      {
        if r[i] == ' ' {
          assert Blank(' ') == ' ';
        }
      }
    }
    var ws := Split(BlankAll(s));
    NormalizeIsJoinedWords(s);
    NormalizeIsJoinedWords(r);
    SplitJoinRoundTrip(ws);
  }

  // ---------------------------------------------------------------------------
  // Yes / no

  predicate WordCharAt(s: string, i: int)
  {
    0 <= i < |s| && IsWordChar(s[i])
  }

  /** `\b` at position `i`: a word character on exactly one side. */
  predicate Boundary(s: string, i: int)
  {
    WordCharAt(s, i - 1) != WordCharAt(s, i)
  }

  /** `\bw\b` matches at position `i`. */
  predicate WholeWordAt(s: string, w: string, i: nat)
  {
    i + |w| <= |s| && s[i..i + |w|] == w && Boundary(s, i) && Boundary(s, i + |w|)
  }

  /** `re.search(r"\b(w1|w2|...)\b", s)` finds a match. */
  predicate HasWholeWord(s: string, ws: seq<string>)
  {
    exists i: nat, k :: i <= |s| && 0 <= k < |ws| && WholeWordAt(s, ws[k], i)
  }

  const YesWords: seq<string> := ["yes", "y", "yeah", "yep", "correct", "confirm", "ok", "okay", "sure",
    "affirmative", "نعم", "ايوه", "أيوه", "تمام", "موافق"]

  const NoWords: seq<string> := ["no", "n", "nope", "cancel", "stop", "never", "لا", "مش", "غير موافق"]

  /** `_is_yes`: one of the yes words stands as a whole word in the normalized text. */
  predicate IsYes(text: string)
  {
    HasWholeWord(Normalize(text), YesWords)
  }

  /** `_is_no`: one of the no words stands as a whole word in the normalized text. */
  predicate IsNo(text: string)
  {
    HasWholeWord(Normalize(text), NoWords)
  }

  /** The detectors read only the normalized text, so case and punctuation
      make no difference to them. */
  lemma YesNoIgnoreSurface(text: string)
    ensures IsYes(text) == IsYes(Normalize(text))
    ensures IsNo(text) == IsNo(Normalize(text))
  {
    NormalizeIdempotent(text);
  }

  /** Inside a run of word characters there is no `\b`, so `\bw\b` can match
      only the whole run. */
  lemma WholeWordInOneWord(s: string, w: string, i: nat)
    requires forall j :: 0 <= j < |s| ==> IsWordChar(s[j])
    requires w != [] && WholeWordAt(s, w, i)
    ensures i == 0 && w == s
  {
    assert WordCharAt(s, i) && WordCharAt(s, i + |w| - 1);
    assert !WordCharAt(s, i - 1) && !WordCharAt(s, i + |w|);
    assert s[0..|s|] == s;
  }

  /** A text of word characters contains one of the words as a whole word
      exactly when it is one of them. */
  lemma OneWordMatchesIff(s: string, ws: seq<string>)
    requires forall j :: 0 <= j < |s| ==> IsWordChar(s[j])
    requires forall k :: 0 <= k < |ws| ==> ws[k] != []
    ensures HasWholeWord(s, ws) <==> s in ws
  {
    if HasWholeWord(s, ws) {
      var i: nat, k :| i <= |s| && 0 <= k < |ws| && WholeWordAt(s, ws[k], i);
      WholeWordInOneWord(s, ws[k], i);
    }
    if s in ws {
      var k :| 0 <= k < |ws| && ws[k] == s;
      assert s[0..|s|] == s;
      assert WholeWordAt(s, ws[k], 0);
    }
  }

  /** An utterance that normalizes to a single word is a "yes" exactly when
      that word is a yes word, and a "no" exactly when it is a no word; a yes
      or no word inside a longer word does not count. */
  lemma OneWordYesNo(text: string)
    requires forall j :: 0 <= j < |Normalize(text)| ==> IsWordChar(Normalize(text)[j])
    ensures IsYes(text) <==> Normalize(text) in YesWords
    ensures IsNo(text) <==> Normalize(text) in NoWords
  {
    var n := Normalize(text);
    WordListsNonEmpty();
    OneWordMatchesIff(n, YesWords);
    OneWordMatchesIff(n, NoWords);
  }

  lemma WordListsNonEmpty()
    ensures forall k :: 0 <= k < |YesWords| ==> YesWords[k] != []
    ensures forall k :: 0 <= k < |NoWords| ==> NoWords[k] != []
  {
  }

  /** "eyes" holds "yes" and "y" only inside a longer word: neither a yes nor a no. */
  lemma YesInsideWordIgnored(text: string)
    requires text == "eyes"
    ensures !IsYes(text) && !IsNo(text)
  {
    EyesAreLowerLetters(text);
    NormalizeLowerWord(text);
    EyesIsNoListedWord(Normalize(text));
    OneWordYesNo(text);
  }

  lemma EyesAreLowerLetters(text: string)
    requires text == "eyes"
    ensures forall j :: 0 <= j < |text| ==> 'a' <= text[j] <= 'z'
  {
  }

  lemma EyesIsNoListedWord(text: string)
    requires text == "eyes"
    ensures forall j :: 0 <= j < |text| ==> IsWordChar(text[j])
    ensures text !in YesWords && text !in NoWords
  {
  }

  /** A word of lower-case ASCII letters is its own normal form. */
  lemma NormalizeLowerWord(t: string)
    requires forall j :: 0 <= j < |t| ==> 'a' <= t[j] <= 'z'
    ensures Normalize(t) == t
  {
    assert BlankAll(t) == t by {
      forall j | 0 <= j < |t|
        ensures BlankAll(t)[j] == t[j]
      {
        assert IsWordChar(t[j]);
      }
    }
    assert NoSpace(t);
    assert TrimStart(t) == t;
    assert TrimEnd(t) == t;
    CollapseAppendWord(t, []);
    assert t + [] == t;
  }

  /** "OK." is a yes: upper case is lowered and the full stop is blanked and stripped. */
  lemma PunctuatedYes(text: string)
    requires text == "OK."
    ensures IsYes(text)
  {
    OkNormalizes(text);
    OkIsYesWord(Normalize(text));
    OneWordYesNo(text);
  }

  lemma OkIsYesWord(t: string)
    requires t == "ok"
    ensures t in YesWords && forall j :: 0 <= j < |t| ==> IsWordChar(t[j])
  {
    assert YesWords[6] == t;
  }

  lemma OkBlanked(text: string)
    requires text == "OK."
    ensures BlankAll(text) == "ok "
  {
    assert Blank('O') == 'o' && Blank('K') == 'k' && Blank('.') == ' ';
  }

  lemma OkNormalizes(text: string)
    requires text == "OK."
    ensures Normalize(text) == "ok"
  {
    OkBlanked(text);
    assert TrimStart("ok ") == "ok ";
    assert TrimEnd("ok ") == "ok";
    assert CollapseSpaces("ok") == "ok";
  }

  // ---------------------------------------------------------------------------
  // Arabic test, price and intents

  /** `_has_arabic`: some character lies in U+0600..U+06FF. */
  predicate HasArabic(text: string)
  {
    exists i :: 0 <= i < |text| && InArabicBlock(text[i])
  }

  /** `_parse_price`: the first signed decimal token of the raw text. Unlike
      the extractor's price reader, nothing is translated first, although
      `\d` and `float()` both accept Arabic-Indic digits. */
  function ParsePrice(text: string): (r: Option<real>)
    ensures r.Some? <==> exists k :: 0 <= k < |text| && IsDecimalDigit(text[k])
  {
    Numbers.FirstNumberIffDigit(text);
    Numbers.ParseFirstNumber(text)
  }

  /** `_detect_add_intent`: a raw substring test on the normalized text. */
  predicate DetectAddIntent(text: string)
  {
    var n := Normalize(text);
    Contains(n, "add") || Contains(n, "new item") || Contains(n, "add item")
  }

  /** `_detect_edit_intent`. */
  predicate DetectEditIntent(text: string)
  {
    var n := Normalize(text);
    Contains(n, "edit") || Contains(n, "update") || Contains(n, "modify")
  }

  /** The third keyword of the add test is subsumed by the first. */
  lemma AddIntentIff(text: string)
    ensures DetectAddIntent(text) <==> Contains(Normalize(text), "add") || Contains(Normalize(text), "new item")
  {
    var n := Normalize(text);
    if Contains(n, "add item") {
      assert StartsWith("add item", "add");
      ContainsTransitive(n, "add item", "add");
    }
  }

  /** Containment is not a word test: any text holding "add" inside a longer
      word, such as "address", counts as an add request. */
  lemma AddInsideWordIsAddIntent(text: string, i: nat)
    requires i + 3 <= |Normalize(text)| && Normalize(text)[i..i + 3] == "add"
    ensures DetectAddIntent(text)
  {
    ContainsAt(Normalize(text), "add", i);
  }

  // ---------------------------------------------------------------------------
  // Questions of the add flow

  /** `_add_question` for the five field keys. */
  function AddQuestion(f: Field): string
  {
    match f
    case NameAr => "What will be the Arabic name? Please say it in Arabic."
    case NameEn => "What will be the English name?"
    case DescriptionAr => "What will be the Arabic description you want to add? Please say it in Arabic."
    case DescriptionEn => "What will be the English description you want to add?"
    case Price => "What will be the price you want to add to this item?"
  }

  /** Each field has its own question, so the question names the pending field. */
  lemma AddQuestionInjective()
    ensures forall f, g :: AddQuestion(f) == AddQuestion(g) ==> f == g
  {
    forall f, g | AddQuestion(f) == AddQuestion(g)
      ensures f == g
    {
      QuestionLength(f);
      QuestionLength(g);
    }
  }

  /** The questions have pairwise different lengths. */
  lemma QuestionLength(f: Field)
    ensures |AddQuestion(f)| == match f
      case NameAr => 54
      case NameEn => 30
      case DescriptionAr => 77
      case DescriptionEn => 53
      case Price => 52
  {
  }

  // ---------------------------------------------------------------------------
  // Value cleaner

  /** The letters of `w` (lower-case) appear at `i`, ignoring case (`re.I`). */
  predicate MatchesAt(t: string, i: nat, w: string)
  {
    i + |w| <= |t| && forall k :: 0 <= k < |w| ==> Lower(t[i + k]) == w[k]
  }

  /** End of the greedy `\s*` run starting at `i`. */
  function SpaceRunEnd(t: string, i: nat): (e: nat)
    requires i <= |t|
    ensures i <= e <= |t| && AllSpace(t[i..e]) && (e == |t| || !IsSpace(t[e]))
    decreases |t| - i
  {
    if i < |t| && IsSpace(t[i]) then SpaceRunEnd(t, i + 1) else i
  }

  /** `(a1|a2|...)` at `i`: the end of the first alternative that matches.
      In every group of the filler pattern the alternatives differ within
      their first two letters, so at most one of them matches anywhere and
      taking the first loses no match. */
  function AlternativeEnd(t: string, i: nat, alts: seq<string>): (r: Option<nat>)
    requires i <= |t|
    ensures r.Some? ==> exists k :: 0 <= k < |alts| && MatchesAt(t, i, alts[k]) && r.value == i + |alts[k]|
    ensures r.None? ==> forall k :: 0 <= k < |alts| ==> !MatchesAt(t, i, alts[k])
  {
    if alts == [] then None
    else if MatchesAt(t, i, alts[0]) then Some(i + |alts[0]|)
    else
      var r := AlternativeEnd(t, i, alts[1..]);
      assert forall k :: 1 <= k < |alts| ==> alts[k] == alts[1..][k - 1];
      r
  }

  /** `(a1|a2|...)\s+` at `i`: the end of the space run after the alternative. */
  function GroupEnd(t: string, i: nat, alts: seq<string>): (r: Option<nat>)
    requires i <= |t|
    ensures r.Some? ==> i < r.value <= |t|
  {
    match AlternativeEnd(t, i, alts)
    case None => None
    case Some(j) =>
      var k := SpaceRunEnd(t, j);
      if k > j then Some(k) else None
  }

  /** `(arabic|english)\s+(name|description)\s+(is|it will be|will be)\s+` at `i`. */
  function FieldPhraseEnd(t: string, i: nat): (r: Option<nat>)
    requires i <= |t|
    ensures r.Some? ==> i < r.value <= |t|
  {
    match GroupEnd(t, i, ["arabic", "english"])
    case None => None
    case Some(a) =>
      match GroupEnd(t, a, ["name", "description"])
      case None => None
      case Some(b) => GroupEnd(t, b, ["is", "it will be", "will be"])
  }

  /** The end of the filler prefix `^(the\s+)?(arabic|english)\s+...\s+`: the
      optional `the` is tried first and given up when the rest fails after it. */
  function FillerEnd(t: string): (r: Option<nat>)
    ensures r.Some? ==> 0 < r.value <= |t|
  {
    match GroupEnd(t, 0, ["the"])
    case Some(a) =>
      var withThe := FieldPhraseEnd(t, a);
      if withThe.Some? then withThe else FieldPhraseEnd(t, 0)
    case None => FieldPhraseEnd(t, 0)
  }

  function StripFiller(t: string): (r: string)
    ensures |r| <= |t| && r == t[|t| - |r|..]
  {
    match FillerEnd(t)
    case None => t
    case Some(e) => t[e..]
  }

  /** A character of `[a-zA-Z\u0600-\u06ff0-9]`. */
  predicate ValueChar(c: char)
  {
    IsAsciiLetter(c) || IsAsciiDigit(c) || InArabicBlock(c)
  }

  /** `re.sub(r"^[^a-zA-Z\u0600-\u06ff0-9]+", "", t)`. */
  function DropLeadingNonValue(t: string): (r: string)
    ensures |r| <= |t| && r == t[|t| - |r|..]
    ensures r == [] || ValueChar(r[0])
    ensures forall i :: 0 <= i < |t| - |r| ==> !ValueChar(t[i])
    decreases |t|
  {
    if t != [] && !ValueChar(t[0]) then
      var r := DropLeadingNonValue(t[1..]);
      assert t[1..][|t| - 1 - |r|..] == t[|t| - |r|..];
      assert forall i :: 1 <= i < |t| - |r| ==> t[i] == t[1..][i - 1];
      r
    else t
  }

  predicate IsClosingPunct(c: char)
  {
    c == '.' || c == '\U{060C}' || c == ',' || c == '!' || c == '?'
  }

  /** `re.sub(r"[.،,!?]+$", "", t)`. The text reaching it ends with what
      `strip()` left, never with a newline, so `$` is the end of the text. */
  function DropTrailingPunct(t: string): (r: string)
    ensures |r| <= |t| && r == t[..|r|]
    ensures r == [] || !IsClosingPunct(r[|r| - 1])
    ensures forall i :: |r| <= i < |t| ==> IsClosingPunct(t[i])
    decreases |t|
  {
    if t != [] && IsClosingPunct(t[|t| - 1]) then DropTrailingPunct(t[..|t| - 1]) else t
  }

  /** `_clean_value`: strip, drop a spoken "the English name is ..." style
      prefix, drop leading characters that are not letters or digits, drop
      trailing punctuation, strip again. */
  function CleanValue(text: string): string
  {
    Strip(DropTrailingPunct(DropLeadingNonValue(StripFiller(Strip(text)))))
  }

  lemma SliceContained(t: string, a: nat, b: nat)
    requires a <= b <= |t|
    ensures Contains(t, t[a..b])
  {
    ContainsAt(t, t[a..b], a);
  }

  lemma StripContained(t: string)
    ensures Contains(t, Strip(t))
  {
    var a := TrimStart(t);
    assert Strip(t) == TrimEnd(a);
    SuffixContained(t, a);
    PrefixContained(a, TrimEnd(a));
    ContainsTransitive(t, a, Strip(t));
  }

  lemma SuffixContained(t: string, r: string)
    requires |r| <= |t| && r == t[|t| - |r|..]
    ensures Contains(t, r)
  {
    assert t[|t| - |r|..|t|] == r;
    SliceContained(t, |t| - |r|, |t|);
  }

  lemma PrefixContained(t: string, r: string)
    requires |r| <= |t| && r == t[..|r|]
    ensures Contains(t, r)
  {
    assert t[0..|r|] == r;
    SliceContained(t, 0, |r|);
  }

  lemma StripFillerContained(t: string)
    ensures Contains(t, StripFiller(t))
  {
    SuffixContained(t, StripFiller(t));
  }

  /** The cleaned value is a piece of the utterance, cut out verbatim. */
  lemma CleanValueOccursIn(text: string)
    ensures Contains(text, CleanValue(text))
  {
    var s2 := StripFiller(Strip(text));
    CleanHeadContained(text);
    CleanTailContained(s2);
    ContainsTransitive(text, s2, Strip(DropTrailingPunct(DropLeadingNonValue(s2))));
  }

  lemma CleanHeadContained(text: string)
    ensures Contains(text, StripFiller(Strip(text)))
  {
    var s1 := Strip(text);
    StripContained(text);
    StripFillerContained(s1);
    ContainsTransitive(text, s1, StripFiller(s1));
  }

  lemma CleanTailContained(s2: string)
    ensures Contains(s2, Strip(DropTrailingPunct(DropLeadingNonValue(s2))))
  {
    var s3 := DropLeadingNonValue(s2);
    var s4 := DropTrailingPunct(s3);
    SuffixContained(s2, s3);
    PrefixContained(s3, s4);
    ContainsTransitive(s2, s3, s4);
    StripContained(s4);
    ContainsTransitive(s2, s4, Strip(s4));
  }

  /** Stripping a text that starts with a non-space character keeps that character. */
  lemma StripKeepsFirst(t: string)
    requires t != [] && !IsSpace(t[0])
    ensures Strip(t) != [] && Strip(t)[0] == t[0]
  {
    assert TrimStart(t) == t;
  }

  /** The cleaned value starts with a letter or digit and has no whitespace
      at either end. */
  lemma CleanValueEdges(text: string)
    ensures CleanValue(text) == [] || ValueChar(CleanValue(text)[0])
    ensures CleanValue(text) == [] || !IsSpace(CleanValue(text)[|CleanValue(text)| - 1])
  {
    var u := StripFiller(Strip(text));
    var r := CleanValue(text);
    assert r == Strip(DropTrailingPunct(DropLeadingNonValue(u)));
    CleanTailEdges(u);
  }

  lemma CleanTailEdges(u: string)
    ensures Strip(DropTrailingPunct(DropLeadingNonValue(u))) == []
      || ValueChar(Strip(DropTrailingPunct(DropLeadingNonValue(u)))[0])
  {
    var s3 := DropLeadingNonValue(u);
    var s4 := DropTrailingPunct(s3);
    if s4 != [] {
      var c := s3[0];
      assert s4[0] == c;
      assert ValueChar(c);
      ValueCharNotSpace(c);
      StripKeepsFirst(s4);
    }
  }

  lemma ValueCharNotSpace(c: char)
    requires ValueChar(c)
    ensures !IsSpace(c)
  {
  }

  // ---------------------------------------------------------------------------
  // Field choice

  /** The phrase `_field_choice_from_text` looks for. */
  function FieldKeyword(f: Field): string
  {
    match f
    case NameAr => "arabic name"
    case NameEn => "english name"
    case DescriptionAr => "arabic description"
    case DescriptionEn => "english description"
    case Price => "price"
  }

  /** `_field_choice_from_text`: the first field, in the fixed order, whose
      phrase occurs in the normalized text. */
  function FieldChoice(text: string): (r: Option<Field>)
    ensures r.Some? ==> Contains(Normalize(text), FieldKeyword(r.value))
  {
    FirstMentioned(Normalize(text))
  }

  function FirstMentioned(n: string): (r: Option<Field>)
    ensures r.Some? ==> Contains(n, FieldKeyword(r.value))
  {
    if Contains(n, "arabic name") then Some(NameAr)
    else if Contains(n, "english name") then Some(NameEn)
    else if Contains(n, "arabic description") then Some(DescriptionAr)
    else if Contains(n, "english description") then Some(DescriptionEn)
    else if Contains(n, "price") then Some(Price)
    else None
  }

  /** No field earlier in the order is mentioned than the one chosen, and
      nothing is chosen only when no field is mentioned. */
  lemma FieldChoiceIsFirstMentioned(text: string, f: Field)
    requires Contains(Normalize(text), FieldKeyword(f))
    ensures FieldChoice(text).Some? && Rank(FieldChoice(text).value) <= Rank(f)
  {
    FirstMentionedIsFirst(Normalize(text), f);
  }

  lemma FirstMentionedIsFirst(n: string, f: Field)
    requires Contains(n, FieldKeyword(f))
    ensures FirstMentioned(n).Some? && Rank(FirstMentioned(n).value) <= Rank(f)
  {
    match f
    case NameAr =>
    case NameEn =>
    case DescriptionAr =>
    case DescriptionEn =>
    case Price =>
  }
}
