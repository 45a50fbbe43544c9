/** The post-cleaning of the menu extractor (src/extract_menu.py): removing
    citation keys from the decoded extraction, normalizing the text fields,
    reading prices, and the loop that turns the extracted rows into menu
    items. The document-conversion call that produces the rows is not part of
    this model. */
module MenuExtraction {
  import opened Wrappers
  import opened Chars
  import opened Text
  import opened JsonValues
  import opened MenuModel
  import Numbers

  // ---------------------------------------------------------------------------
  // _strip_citations

  const CitationSuffix := "_citations"

  /** `k.endswith("_citations")`. */
  predicate IsCitationKey(k: string)
  {
    |k| >= |CitationSuffix| && k[|k| - |CitationSuffix|..] == CitationSuffix
  }

  /** The members whose keys are not citation keys, in order. */
  function KeptMembers(ms: seq<(string, Json)>): (r: seq<(string, Json)>)
    ensures |r| <= |ms|
    ensures forall i :: 0 <= i < |r| ==> r[i] in ms && !IsCitationKey(r[i].0)
  {
    if ms == [] then []
    else if IsCitationKey(ms[0].0) then KeptMembers(ms[1..])
    else [ms[0]] + KeptMembers(ms[1..])
  }

  /** `_strip_citations`: citation keys are dropped from every object at every
      depth; lists are cleaned element by element; other values are kept. */
  function StripCitations(j: Json): Json
  {
    match j
    case JObj(ms) =>
      var kept := KeptMembers(ms);
      JObj(seq(|kept|, i requires 0 <= i < |kept| => (kept[i].0, StripCitations(kept[i].1))))
    case JArr(xs) => JArr(seq(|xs|, i requires 0 <= i < |xs| => StripCitations(xs[i])))
    case _ => j
  }

  /** No object, at any depth, has a citation key. */
  predicate NoCitations(j: Json)
  {
    match j
    case JObj(ms) => forall m :: m in ms ==> !IsCitationKey(m.0) && NoCitations(m.1)
    case JArr(xs) => forall x :: x in xs ==> NoCitations(x)
    case _ => true
  }

  /** After cleaning, no citation key is left anywhere. */
  lemma {:induction false} StripRemovesCitations(j: Json)
    ensures NoCitations(StripCitations(j))
  {
    match j
    case JObj(ms) =>
      var kept := KeptMembers(ms);
      var r := StripCitations(j).members;
      forall m | m in r
        ensures !IsCitationKey(m.0) && NoCitations(m.1)
      {
        var i :| 0 <= i < |r| && r[i] == m;
        assert m == (kept[i].0, StripCitations(kept[i].1));
        StripRemovesCitations(kept[i].1);
      }
    case JArr(xs) =>
      var r := StripCitations(j).elems;
      forall x | x in r
        ensures NoCitations(x)
      {
        var i :| 0 <= i < |r| && r[i] == x;
        StripRemovesCitations(xs[i]);
      }
    case _ =>
  }

  /** A value without citation keys is left as it is. */
  lemma {:induction false} StripWithoutCitations(j: Json)
    requires NoCitations(j)
    ensures StripCitations(j) == j
  {
    match j
    case JObj(ms) =>
      KeptAll(ms);
      var r := StripCitations(j).members;
      forall i | 0 <= i < |ms|
        ensures r[i] == ms[i]
      {
        assert ms[i] in ms;
        StripWithoutCitations(ms[i].1);
      }
    case JArr(xs) =>
      var r := StripCitations(j).elems;
      forall i | 0 <= i < |xs|
        ensures r[i] == xs[i]
      {
        assert xs[i] in xs;
        StripWithoutCitations(xs[i]);
      }
    case _ =>
  }

  lemma {:induction false} KeptAll(ms: seq<(string, Json)>)
    requires forall m :: m in ms ==> !IsCitationKey(m.0)
    ensures KeptMembers(ms) == ms
  {
    if ms != [] {
      assert ms[0] in ms;
      assert forall m :: m in ms[1..] ==> m in ms;
      KeptAll(ms[1..]);
    }
  }

  /** Cleaning twice is cleaning once. */
  lemma StripIdempotent(j: Json)
    ensures StripCitations(StripCitations(j)) == StripCitations(j)
  {
    StripRemovesCitations(j);
    StripWithoutCitations(StripCitations(j));
  }

  /** Looking a key up after dropping the citation members: a citation key
      is gone, any other key finds what it found before. */
  lemma {:induction false} KeptLookup(ms: seq<(string, Json)>, key: string)
    ensures IsCitationKey(key) ==> Lookup(KeptMembers(ms), key).None?
    ensures !IsCitationKey(key) ==> Lookup(KeptMembers(ms), key) == Lookup(ms, key)
  {
    if ms != [] {
      KeptLookup(ms[1..], key);
      if !IsCitationKey(ms[0].0) {
        assert KeptMembers(ms) == [ms[0]] + KeptMembers(ms[1..]);
        assert ([ms[0]] + KeptMembers(ms[1..]))[1..] == KeptMembers(ms[1..]);
      }
    }
  }

  /** Looking a key up in the members with their values cleaned finds the
      cleaned value. */
  lemma {:induction false} CleanedLookup(kept: seq<(string, Json)>, key: string)
    ensures Lookup(seq(|kept|, i requires 0 <= i < |kept| => (kept[i].0, StripCitations(kept[i].1))), key)
         == (match Lookup(kept, key) case None => None case Some(v) => Some(StripCitations(v)))
  {
    var r := seq(|kept|, i requires 0 <= i < |kept| => (kept[i].0, StripCitations(kept[i].1)));
    if kept != [] {
      var tail := kept[1..];
      assert r[1..] == seq(|tail|, i requires 0 <= i < |tail| => (tail[i].0, StripCitations(tail[i].1)));
      CleanedLookup(tail, key);
    }
  }

  /** A cleaned object has no citation key, and every other key keeps its
      (cleaned) value; a cleaned list keeps its length and order; any other
      value is unchanged. */
  lemma StripCitationsShape(j: Json, key: string)
    ensures j.JObj? ==> StripCitations(j).JObj?
    ensures j.JObj? && IsCitationKey(key) ==> Lookup(StripCitations(j).members, key).None?
    ensures j.JObj? && !IsCitationKey(key) ==>
      Lookup(StripCitations(j).members, key)
        == (match Lookup(j.members, key) case None => None case Some(v) => Some(StripCitations(v)))
    ensures j.JArr? ==> StripCitations(j).JArr? && |StripCitations(j).elems| == |j.elems|
    ensures j.JArr? ==> forall i :: 0 <= i < |j.elems| ==> StripCitations(j).elems[i] == StripCitations(j.elems[i])
    ensures !j.JObj? && !j.JArr? ==> StripCitations(j) == j
  {
    if j.JObj? {
      KeptLookup(j.members, key);
      CleanedLookup(KeptMembers(j.members), key);
    }
  }

  // ---------------------------------------------------------------------------
  // _normalize_text

  /** `str(value)` for a decoded JSON value: a string is itself; how numbers,
      booleans, lists and objects print is left to the caller. */
  function Str(v: Json, show: Json -> string): string
  {
    if v.JStr? then v.s else show(v)
  }

  /** `_normalize_text`: `None` stays `None`; otherwise the text is stripped,
      its whitespace runs become single spaces, and an empty result is `None`. */
  function NormalizeText(v: Json, show: Json -> string): (r: Option<string>)
    ensures v == JNull ==> r.None?
    ensures r.Some? ==> r.value != [] && SingleSpaced(r.value)
  {
    if v == JNull then None
    else
      var s := CollapseSpaces(Strip(Str(v, show)));
      CollapseStripIsJoinSplit(Str(v, show));
      JoinWordsShape(Split(Str(v, show)));
      if s == [] then None else Some(s)
  }

  /** A value that prints as blank becomes `None`; any other becomes the words
      of its text joined by single spaces, which splits back into the same
      words. */
  lemma NormalizeTextWords(v: Json, show: Json -> string)
    requires v != JNull
    ensures NormalizeText(v, show).None? <==> AllSpace(Str(v, show))
    ensures NormalizeText(v, show).Some? ==> NormalizeText(v, show).value == JoinWords(Split(Str(v, show)))
    ensures NormalizeText(v, show).Some? ==> Split(NormalizeText(v, show).value) == Split(Str(v, show))
  {
    CollapseStripIsJoinSplit(Str(v, show));
    JoinWordsShape(Split(Str(v, show)));
    SplitEmptyIffBlank(Str(v, show));
    SplitJoinRoundTrip(Split(Str(v, show)));
  }

  // ---------------------------------------------------------------------------
  // _parse_price

  /** `ARABIC_DIGITS`: an Arabic-Indic digit as the ASCII digit of the same value. */
  function TranslateDigit(c: char): (r: char)
    ensures IsDecimalDigit(r) == IsDecimalDigit(c)
    ensures IsDecimalDigit(c) ==> DigitValue(r) == DigitValue(c)
    ensures !('\U{0660}' <= r <= '\U{0669}')
  {
    if '\U{0660}' <= c <= '\U{0669}' then ('0' as int + (c as int - 0x0660)) as char else c
  }

  /** The text the numeric scan runs on: Arabic-Indic digits translated,
      the Arabic decimal separator `٫` as `.`, and every `,` removed. */
  function PriceText(s: string): (r: string)
    ensures forall i :: 0 <= i < |r| ==> r[i] != ',' && r[i] != '٫' && !('\U{0660}' <= r[i] <= '\U{0669}')
    ensures |r| <= |s|
  {
    if s == [] then []
    else
      var rest := PriceText(s[1..]);
      if s[0] == ',' then rest
      else if s[0] == '٫' then "." + rest
      else [TranslateDigit(s[0])] + rest
  }

  /** The translated text has a digit exactly where the text had one. */
  lemma {:induction false} PriceTextDigits(s: string)
    ensures HasDigit(PriceText(s)) <==> HasDigit(s)
  {
    if s != [] {
      var rest := PriceText(s[1..]);
      PriceTextDigits(s[1..]);
      assert s == [s[0]] + s[1..];
      HasDigitCons(s[0], s[1..]);
      if s[0] == '٫' {
        HasDigitCons('.', rest);
      } else if s[0] != ',' {
        HasDigitCons(TranslateDigit(s[0]), rest);
      }
    }
  }

  /** A text has a digit when its first character is one or the rest has one. */
  lemma HasDigitCons(c: char, s: string)
    ensures HasDigit([c] + s) <==> IsDecimalDigit(c) || HasDigit(s)
  {
    var t := [c] + s;
    if IsDecimalDigit(c) {
      assert t[0] == c;
    }
    if HasDigit(s) {
      var k :| 0 <= k < |s| && IsDecimalDigit(s[k]);
      assert t[k + 1] == s[k];
    }
    if HasDigit(t) {
      var k :| 0 <= k < |t| && IsDecimalDigit(t[k]);
      if k > 0 {
        assert s[k - 1] == t[k];
      }
    }
  }

  /** The string path of `_parse_price`: stripped, blank gives `None`,
      translated, then the first numeric token. */
  function PriceFromText(s: string): (r: Option<real>)
    ensures r.Some? <==> HasDigit(s)
  {
    var t := Strip(s);
    StripKeepsDigits(s);
    if t == [] then None
    else
      PriceTextDigits(t);
      Numbers.FirstNumberIffDigit(PriceText(t));
      Numbers.ParseFirstNumber(PriceText(t))
  }

  /** The text holds a decimal digit (of any script `\d` accepts). */
  predicate HasDigit(s: string)
  {
    exists k :: 0 <= k < |s| && IsDecimalDigit(s[k])
  }

  /** Stripping removes only whitespace, so it keeps every digit. */
  lemma StripKeepsDigits(s: string)
    ensures HasDigit(Strip(s)) <==> HasDigit(s)
  {
    var a := TrimStart(s);
    SpaceFramedDigits(s, |s| - |a|, |s|);
    assert HasDigit(a) <==> HasDigit(s);
    var t := TrimEnd(a);
    SpaceFramedDigits(a, 0, |t|);
    assert HasDigit(t) <==> HasDigit(a);
  }

  /** A slice outside which there is only whitespace holds every digit of
      the text. */
  lemma SpaceFramedDigits(s: string, i: nat, j: nat)
    requires i <= j <= |s|
    requires forall k :: 0 <= k < i ==> IsSpace(s[k])
    requires forall k :: j <= k < |s| ==> IsSpace(s[k])
    ensures HasDigit(s[i..j]) <==> HasDigit(s)
  {
    if HasDigit(s) {
      var k :| 0 <= k < |s| && IsDecimalDigit(s[k]);
      assert !IsSpace(s[k]);
      assert s[i..j][k - i] == s[k];
    }
    if HasDigit(s[i..j]) {
      var k :| 0 <= k < |s[i..j]| && IsDecimalDigit(s[i..j][k]);
      assert s[i + k] == s[i..j][k];
    }
  }

  /** `_parse_price`: `None` gives `None`; a number (a boolean counts as 0 or
      1) is its own value; anything else is read through its text. */
  function ParsePrice(v: Json, show: Json -> string): (r: Option<real>)
    ensures v.JNum? ==> r == Some(v.n)
    ensures v.JBool? ==> r == Some(if v.b then 1.0 else 0.0)
    ensures v == JNull ==> r.None?
    ensures v.JStr? ==> (r.Some? <==> HasDigit(v.s))
  {
    match v
    case JNull => None
    case JBool(b) => Some(if b then 1.0 else 0.0)
    case JNum(n) => Some(n)
    case _ => PriceFromText(Str(v, show))
  }

  /** An ASCII text without `,` is scanned as it is. */
  lemma {:induction false} PriceTextPlain(s: string)
    requires forall i :: 0 <= i < |s| ==> s[i] != ',' && s[i] < '\U{80}'
    ensures PriceText(s) == s
  {
    if s != [] {
      PriceTextPlain(s[1..]);
    }
  }

  /** One character of the price text: `,` is dropped, `٫` becomes `.`, and
      any other character goes through the digit translation. */
  lemma PriceTextChar(c: char)
    ensures PriceText([c]) == (if c == ',' then [] else if c == '٫' then "." else [TranslateDigit(c)])
  {
    assert [c][1..] == [];
  }

  /** The translation works character by character, so it distributes over
      concatenation. */
  lemma {:induction false} PriceTextAppend(a: string, b: string)
    ensures PriceText(a + b) == PriceText(a) + PriceText(b)
    decreases |a|
  {
    if a == [] {
      assert a + b == b;
    } else {
      assert (a + b)[0] == a[0];
      assert (a + b)[1..] == a[1..] + b;
      PriceTextAppend(a[1..], b);
    }
  }

  /** `_parse_price("12.50")` is 12.5. */
  lemma PriceTwelveFifty(s: string)
    requires s == "12.50"
    ensures PriceFromText(s) == Some(12.5)
  {
    assert TrimStart(s) == s;
    assert TrimEnd(s) == s;
    assert s == ['1', '2', '.', '5', '0'];
    PriceTextPlain(s);
    TwelveAndAHalf(s);
  }

  /** `_parse_price("12.00 QR")` is 12.0: the token ends at the space and
      its zero fraction adds nothing. */
  lemma PriceTwelveQr(s: string)
    requires s == "12.00 QR"
    ensures PriceFromText(s) == Some(12.0)
  {
    QrStrip(s);
    QrPlain(s);
    assert s[..5] == "12." + "00";
    TwelvePointToken(s, "00");
    ValueTwelveZero();
  }

  lemma QrStrip(s: string)
    requires s == "12.00 QR"
    ensures Strip(s) == s
  {
    assert TrimStart(s) == s;
    assert TrimEnd(s) == s;
  }

  lemma QrPlain(s: string)
    requires s == "12.00 QR"
    ensures PriceText(s) == s
  {
    assert s == ['1', '2', '.', '0', '0', ' ', 'Q', 'R'];
    PriceTextPlain(s);
  }

  /** A text that starts with "12." and two more digits, followed by its end
      or by a non-digit, has the token 12 with that two-digit fraction first. */
  lemma TwelvePointToken(t: string, frac: string)
    requires |frac| == 2 && IsDecimalDigit(frac[0]) && IsDecimalDigit(frac[1])
    requires |t| >= 5 && t[..5] == "12." + frac && (|t| == 5 || !IsDecimalDigit(t[5]))
    ensures Numbers.FirstNumber(t) == Some(Numbers.Decimal("", "12", frac))
  {
    assert t[0] == '1' && t[1] == '2' && t[2] == '.' && t[3] == frac[0] && t[4] == frac[1];
    assert Numbers.NumberStartsAt(t, 0);
    assert Numbers.DigitRunEnd(t, 2) == 2;
    assert Numbers.DigitRunEnd(t, 0) == 2;
    assert Numbers.DigitRunEnd(t, 5) == 5;
    assert Numbers.DigitRunEnd(t, 3) == 5;
    assert t[0..0] == "" && t[0..2] == "12" && t[3..5] == frac;
  }

  lemma ValueTwelveZero()
    ensures Numbers.WellFormed(Numbers.Decimal("", "12", "00"))
    ensures Numbers.Value(Numbers.Decimal("", "12", "00")) == 12.0
  {
    DigitsTwelve();
    assert "00"[..1] == "0" && "0"[..0] == "";
    assert Numbers.DigitsValue("00") == 0;
  }

  /** The scan of "QAR 12" starts at the "1". */
  lemma QarScanStart()
    ensures Numbers.FindNumberFrom("QAR 12", 0) == Some(4)
  {
    var s := "QAR 12";
    assert !Numbers.NumberStartsAt(s, 0) && !Numbers.NumberStartsAt(s, 1) && !Numbers.NumberStartsAt(s, 2);
    assert !Numbers.NumberStartsAt(s, 3) && Numbers.NumberStartsAt(s, 4);
  }

  /** ... and reads the token "12". */
  lemma QarToken()
    ensures Numbers.NumberStartsAt("QAR 12", 4)
    ensures Numbers.TokenAt("QAR 12", 4) == Numbers.Decimal("", "12", "")
  {
    var s := "QAR 12";
    assert Numbers.NumberStartsAt(s, 4);
    assert Numbers.DigitRunEnd(s, 6) == 6;
    assert Numbers.DigitRunEnd(s, 4) == 6;
    assert s[4..4] == "" && s[4..6] == "12";
  }

  /** The digit run "12" is worth 12. */
  lemma DigitsTwelve()
    ensures Numbers.AllDigits("12") && Numbers.DigitsValue("12") == 12
  {
    assert "12"[..1] == "1";
    assert "1"[..0] == "";
  }

  /** `_parse_price("QAR 12") == 12.0`: the first number is read past a
      currency label. */
  lemma PriceQar12(s: string)
    requires s == "QAR 12"
    ensures PriceFromText(s) == Some(12.0)
  {
    QarStrip(s);
    QarPlain(s);
    QarScanStart();
    QarToken();
    ValueTwelve();
  }

  lemma QarStrip(s: string)
    requires s == "QAR 12"
    ensures Strip(s) == s
  {
    assert TrimStart(s) == s;
    assert TrimEnd(s) == s;
  }

  lemma QarPlain(s: string)
    requires s == "QAR 12"
    ensures PriceText(s) == s
  {
    assert s == ['Q', 'A', 'R', ' ', '1', '2'];
    PriceTextPlain(s);
  }

  /** `_parse_price("١٢٫٥٠")` is 12.5: Arabic-Indic digits are read as
      their ASCII values and `٫` as the decimal point. */
  lemma PriceArabic(s: string)
    requires s == "\U{0661}\U{0662}\U{066B}\U{0665}\U{0660}"
    ensures PriceFromText(s) == Some(12.5)
  {
    ArabicStrip(s);
    ArabicText(s);
    TwelveAndAHalf("12.50");
  }

  lemma ArabicStrip(s: string)
    requires s == "\U{0661}\U{0662}\U{066B}\U{0665}\U{0660}"
    ensures Strip(s) == s
  {
    assert TrimStart(s) == s;
    assert TrimEnd(s) == s;
  }

  lemma ArabicText(s: string)
    requires s == "\U{0661}\U{0662}\U{066B}\U{0665}\U{0660}"
    ensures PriceText(s) == "12.50"
  {
    assert s[1..][1..][1..][1..][1..] == [];
    assert PriceText(s[1..][1..][1..][1..]) == "0";
    assert PriceText(s[1..][1..][1..]) == "50";
    assert PriceText(s[1..][1..]) == ".50";
    assert PriceText(s[1..]) == "2.50";
  }

  lemma TwelveAndAHalf(t: string)
    requires t == "12.50"
    ensures Numbers.ParseFirstNumber(t) == Some(12.5)
  {
    assert t[..5] == "12." + "50";
    TwelvePointToken(t, "50");
    ValueTwelveHalf();
  }

  lemma ValueTwelveHalf()
    ensures Numbers.WellFormed(Numbers.Decimal("", "12", "50"))
    ensures Numbers.Value(Numbers.Decimal("", "12", "50")) == 12.5
  {
    DigitsTwelve();
    assert "50"[..1] == "5" && "5"[..0] == "";
    assert Numbers.DigitsValue("50") == 50;
    assert Numbers.Pow10(2) == 100;
  }

  /** `_parse_price("12,000")` is 12000: thousands separators are dropped. */
  lemma PriceThousands(s: string)
    requires s == "12,000"
    ensures PriceFromText(s) == Some(12000.0)
  {
    ThousandsStrip(s);
    ThousandsText(s);
    TwelveThousand("12000");
  }

  lemma ThousandsStrip(s: string)
    requires s == "12,000"
    ensures Strip(s) == s
  {
    assert TrimStart(s) == s;
    assert TrimEnd(s) == s;
  }

  lemma ThousandsText(s: string)
    requires s == "12,000"
    ensures PriceText(s) == "12000"
  {
    assert s[2] == ',';
    assert s[3..] == "000";
    PriceTextPlain("000");
    assert PriceText(s[2..]) == "000";
    assert s[2..] == s[1..][1..];
    assert PriceText(s[1..]) == "2000";
  }

  lemma TwelveThousand(t: string)
    requires t == "12000"
    ensures Numbers.ParseFirstNumber(t) == Some(12000.0)
  {
    var d := Numbers.Decimal("", t, "");
    TwelveThousandToken(t);
    DigitsTwelveThousand(t);
    WholeNumberValue(d);
  }

  /** A token without sign or fraction is worth its digit run. */
  lemma WholeNumberValue(d: Numbers.Decimal)
    requires Numbers.WellFormed(d) && d.sign == [] && d.fraction == []
    ensures Numbers.Value(d) == Numbers.DigitsValue(d.whole) as real
  {
  }

  lemma TwelveThousandToken(t: string)
    requires t == "12000"
    ensures Numbers.FirstNumber(t) == Some(Numbers.Decimal("", t, ""))
  {
    assert Numbers.NumberStartsAt(t, 0);
    TwelveThousandRun(t);
    assert t[0..0] == "" && t[0..5] == t;
  }

  lemma TwelveThousandRun(t: string)
    requires t == "12000"
    ensures Numbers.DigitRunEnd(t, 0) == 5
  {
    assert Numbers.DigitRunEnd(t, 5) == 5;
    assert Numbers.DigitRunEnd(t, 4) == 5;
    assert Numbers.DigitRunEnd(t, 3) == 5;
    assert Numbers.DigitRunEnd(t, 2) == 5;
    assert Numbers.DigitRunEnd(t, 1) == 5;
  }

  lemma DigitsTwelveThousand(t: string)
    requires t == "12000"
    ensures Numbers.AllDigits(t) && Numbers.DigitsValue(t) == 12000
  {
    DigitsTwelve();
    assert t[..4][..3][..2] == "12";
    assert Numbers.DigitsValue(t[..4][..3]) == 120;
    assert Numbers.DigitsValue(t[..4]) == 1200;
  }

  lemma ValueTwelve()
    ensures Numbers.WellFormed(Numbers.Decimal("", "12", ""))
    ensures Numbers.Value(Numbers.Decimal("", "12", "")) == 12.0
  {
    DigitsTwelve();
  }

  // ---------------------------------------------------------------------------
  // The post-cleaning loop

  /** One extracted row, cleaned: its four texts normalized and its price read. */
  function CleanRow(row: Json, show: Json -> string): MenuFields
    requires row.JObj?
  {
    MenuFields(
      NormalizeText(Get(row.members, "name_ar"), show),
      NormalizeText(Get(row.members, "name_en"), show),
      NormalizeText(Get(row.members, "description_ar"), show),
      NormalizeText(Get(row.members, "description_en"), show),
      ParsePrice(Get(row.members, "price"), show))
  }

  /** A cleaned row with no text and no price: it is dropped. */
  predicate IsBlankRow(m: MenuFields)
  {
    m.nameAr.None? && m.nameEn.None? && m.descriptionAr.None? && m.descriptionEn.None? && m.price.None?
  }

  /** The record one extracted row contributes: none for an entry that is
      not an object or that is blank once cleaned. */
  function KeptRow(row: Json, show: Json -> string): (r: Option<MenuFields>)
    ensures r.Some? ==> !IsBlankRow(r.value)
  {
    if !row.JObj? then None
    else
      var m := CleanRow(row, show);
      if IsBlankRow(m) then None else Some(m)
  }

  function Keeper(show: Json -> string): Json -> Option<MenuFields>
  {
    row => KeptRow(row, show)
  }

  /** The records `keep` gives for a list of rows, in order. */
  function KeepRows(rows: seq<Json>, keep: Json -> Option<MenuFields>): seq<MenuFields>
  {
    if rows == [] then []
    else
      var rest := KeepRows(rows[1..], keep);
      match keep(rows[0])
      case None => rest
      case Some(m) => [m] + rest
  }

  /** The cleaned rows of a list of extracted rows: entries that are not
      objects and blank rows are skipped, the rest kept in order. */
  function CleanRows(rows: seq<Json>, show: Json -> string): seq<MenuFields>
  {
    KeepRows(rows, Keeper(show))
  }

  /** The record written for a cleaned row: exactly the five keys, in order. */
  function RowJson(m: MenuFields): (j: Json)
    ensures j.JObj? && |j.members| == 5
    ensures forall k :: 0 <= k < 5 ==> j.members[k].0 == Key(FieldOrder[k])
  {
    JObj([("name_ar", TextJson(m.nameAr)), ("name_en", TextJson(m.nameEn)),
      ("description_ar", TextJson(m.descriptionAr)), ("description_en", TextJson(m.descriptionEn)),
      ("price", if m.price.Some? then JNum(m.price.value) else JNull)])
  }

  function TextJson(s: Option<string>): Json
  {
    if s.Some? then JStr(s.value) else JNull
  }

  /** What the cleaning step returns, or `Raises` when the decoded extraction
      is not an object (`.get` on it raises). */
  datatype CleanOutcome = Raises | Cleaned(result: Json)

  /** The items the loop walks: `extracted.get("items", [])` when it is a list,
      and none otherwise. */
  function RawItems(extracted: Json): seq<Json>
    requires extracted.JObj?
  {
    var items := Lookup(extracted.members, "items").GetOr(JArr([]));
    if items.JArr? then items.elems else []
  }

  /** Rows are kept in input order: the records of a concatenation are the
      records of each part. */
  lemma {:induction false} KeepRowsAppend(a: seq<Json>, b: seq<Json>, keep: Json -> Option<MenuFields>)
    ensures KeepRows(a + b, keep) == KeepRows(a, keep) + KeepRows(b, keep)
  {
    if a != [] {
      assert (a + b)[0] == a[0];
      assert (a + b)[1..] == a[1..] + b;
      KeepRowsAppend(a[1..], b, keep);
    } else {
      assert a + b == b;
    }
  }

  /** A property every record `keep` gives holds of every record kept. */
  lemma {:induction false} KeepRowsNotBlank(rows: seq<Json>, keep: Json -> Option<MenuFields>)
    requires forall x :: keep(x).Some? ==> !IsBlankRow(keep(x).value)
    ensures forall k :: 0 <= k < |KeepRows(rows, keep)| ==> !IsBlankRow(KeepRows(rows, keep)[k])
  {
    if rows != [] {
      var rest := KeepRows(rows[1..], keep);
      KeepRowsNotBlank(rows[1..], keep);
      if keep(rows[0]).Some? {
        var c := [keep(rows[0]).value] + rest;
        assert KeepRows(rows, keep) == c;
        forall k | 0 <= k < |c|
          ensures !IsBlankRow(c[k])
        {
          if k > 0 {
            assert c[k] == rest[k - 1];
          }
        }
      }
    }
  }

  /** There are never more records out than rows in. */
  lemma {:induction false} KeepRowsShorter(rows: seq<Json>, keep: Json -> Option<MenuFields>)
    ensures |KeepRows(rows, keep)| <= |rows|
  {
    if rows != [] {
      KeepRowsShorter(rows[1..], keep);
    }
  }

  /** Every kept row has a text or a price. */
  lemma CleanRowsKept(rows: seq<Json>, show: Json -> string)
    ensures forall k :: 0 <= k < |CleanRows(rows, show)| ==> !IsBlankRow(CleanRows(rows, show)[k])
  {
    KeepRowsNotBlank(rows, Keeper(show));
  }

  /** Each extracted row contributes its cleaned record exactly when it is an
      object that is not blank once cleaned. */
  lemma CleanRowsOne(row: Json, show: Json -> string)
    ensures CleanRows([row], show) == (if row.JObj? && !IsBlankRow(CleanRow(row, show)) then [CleanRow(row, show)] else [])
  {
    var keep := Keeper(show);
    assert [row][1..] == [];
    assert KeepRows([row][1..], keep) == [];
    assert keep(row) == KeptRow(row, show);
  }

  /** Cleaning one more extracted row adds its record, if it keeps one, at the end. */
  lemma CleanRowsPrefix(rows: seq<Json>, i: nat, show: Json -> string)
    requires i < |rows|
    ensures CleanRows(rows[..i + 1], show) == CleanRows(rows[..i], show)
      + (if rows[i].JObj? && !IsBlankRow(CleanRow(rows[i], show)) then [CleanRow(rows[i], show)] else [])
  {
    assert rows[..i + 1] == rows[..i] + [rows[i]];
    KeepRowsAppend(rows[..i], [rows[i]], Keeper(show));
    CleanRowsOne(rows[i], show);
  }

  /** The records written for the cleaned rows, in order. */
  function RowsJson(ms: seq<MenuFields>): (r: seq<Json>)
    ensures |r| == |ms|
    ensures forall k :: 0 <= k < |ms| ==> r[k] == RowJson(ms[k])
  {
    if ms == [] then [] else [RowJson(ms[0])] + RowsJson(ms[1..])
  }

  /** What the post-cleaning step of `extract_menu_async` returns for the
      decoded extraction: the citations are removed, each extracted row is
      cleaned, blank rows and non-object entries are skipped, and the kept
      rows are returned under `items`. */
  function Extracted(decoded: Json, show: Json -> string): CleanOutcome
  {
    var extracted := StripCitations(decoded);
    if !extracted.JObj? then Raises
    else Cleaned(JObj([("items", JArr(RowsJson(CleanRows(RawItems(extracted), show))))]))
  }

  /** The result is an object with the one key `items`, whose list holds at
      most one record per extracted row; every record has the five keys and
      a text or a price, and no citation key is left in it. */
  lemma ExtractedShape(decoded: Json, show: Json -> string)
    ensures Extracted(decoded, show).Raises? <==> !StripCitations(decoded).JObj?
    ensures Extracted(decoded, show).Cleaned? ==>
      var out := Extracted(decoded, show).result;
      && out.JObj? && |out.members| == 1 && out.members[0].0 == "items" && out.members[0].1.JArr?
      && |out.members[0].1.elems| <= |RawItems(StripCitations(decoded))|
      && (forall k :: 0 <= k < |out.members[0].1.elems| ==>
            out.members[0].1.elems[k] == RowJson(CleanRows(RawItems(StripCitations(decoded)), show)[k])
            && !IsBlankRow(CleanRows(RawItems(StripCitations(decoded)), show)[k]))
  {
    if StripCitations(decoded).JObj? {
      CleanRowsKept(RawItems(StripCitations(decoded)), show);
      KeepRowsShorter(RawItems(StripCitations(decoded)), Keeper(show));
    }
  }

  /** The post-cleaning loop of `extract_menu_async`. */
  method PostClean(decoded: Json, show: Json -> string) returns (out: CleanOutcome)
    ensures out == Extracted(decoded, show)
  {
    var extracted := StripCitations(decoded);
    if !extracted.JObj? {
      return Raises;
    }
    var items := RawItems(extracted);
    ghost var rows: seq<MenuFields> := [];
    var cleaned: seq<Json> := [];
    var i := 0;
    while i < |items|
      invariant 0 <= i <= |items|
      invariant rows == CleanRows(items[..i], show)
      invariant |cleaned| == |rows| && forall k :: 0 <= k < |rows| ==> cleaned[k] == RowJson(rows[k])
    {
      var it := items[i];
      CleanRowsPrefix(items, i, show);
      if it.JObj? {
        var m := CleanRow(it, show);
        if !IsBlankRow(m) {
          rows := rows + [m];
          cleaned := cleaned + [RowJson(m)];
        }
      }
      i := i + 1;
    }
    assert items[..i] == items;
    assert cleaned == RowsJson(rows);
    return Cleaned(JObj([("items", JArr(cleaned))]));
  }
}
