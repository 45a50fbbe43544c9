/** The scored name matcher `_find_menu_item_match`
    (src/voice_assistant.py:143-179): which item of the menu snapshot a
    spoken name refers to. This module states what the matcher computes;
    `VoiceAssistant.MyAgent.FindMenuItemMatch` is the loop that computes it. */
module MenuMatch {
  import opened Wrappers
  import opened JsonValues
  import opened Text
  import opened MenuModel
  import opened Utterance

  /** What a call of the matcher does: raise (a dynamic type error in Python)
      or return an item or `None`. */
  datatype MatchOutcome = Raised | Found(item: Option<Json>)

  /** `item.get(key) or ""` as the normalizer receives it, or `None` when
      that value is truthy but not a string: calling `.lower()` on it raises. */
  function NameArg(item: Json, key: string): Option<string>
    requires item.JObj?
  {
    var v := Get(item.members, key);
    if !Truthy(v) then Some("") else if v.JStr? then Some(v.s) else None
  }

  /** Normalizing one of the item's names raises. */
  predicate Crashes(item: Json)
  {
    item.JObj? && (NameArg(item, "name_ar").None? || NameArg(item, "name_en").None?)
  }

  /** A dict item whose names can be read. */
  predicate Readable(item: Json)
  {
    item.JObj? && !Crashes(item)
  }

  function NormName(item: Json, key: string): string
    requires item.JObj? && NameArg(item, key).Some?
  {
    Normalize(NameArg(item, key).value)
  }

  /** The `(lang, name)` pairs the matcher compares against: the normalized
      Arabic name, then the normalized English name, each only when not empty. */
  function CandidateList(ar: string, en: string): (cs: seq<(Lang, string)>)
    ensures |cs| <= 2 && forall i :: 0 <= i < |cs| ==> cs[i].1 != []
  {
    (if ar != [] then [(Ar, ar)] else []) + (if en != [] then [(En, en)] else [])
  }

  function Candidates(item: Json): seq<(Lang, string)>
    requires Readable(item)
  {
    CandidateList(NormName(item, "name_ar"), NormName(item, "name_en"))
  }

  /** `set(s.split())`. */
  function Tokens(s: string): set<string>
  {
    set w | w in Split(s)
  }

  /** The score of one candidate that is not an exact match: 2 when one
      name contains the other, otherwise the number of shared words, plus 1
      when the candidate is in the preferred language. */
  function Score(q: string, name: string, lang: Lang, prefer: Lang): (n: nat)
    ensures n <= 3 || (!Contains(name, q) && !Contains(q, name))
    ensures lang == prefer ==> n >= 1
  {
    (if Contains(name, q) || Contains(q, name) then 2 else |Tokens(q) * Tokens(name)|)
      + (if lang == prefer then 1 else 0)
  }

  /** The running state of the scan: an exact match ended it, or the best
      item so far and its score (`best`, `best_score`). */
  datatype Scan = Exact(found: Json) | Best(best: Option<Json>, score: nat)

  /** The inner loop over one item's candidates. */
  function ScanCandidates(item: Json, cs: seq<(Lang, string)>, q: string, prefer: Lang, acc: Scan): Scan
    requires acc.Best?
    decreases |cs|
  {
    if cs == [] then acc
    else if cs[0].1 == q then Exact(item)
    else
      var s := Score(q, cs[0].1, cs[0].0, prefer);
      ScanCandidates(item, cs[1..], q, prefer, if s > acc.score then Best(Some(item), s) else acc)
  }

  /** The outer loop over the items, from the given running state: non-dict
      items are skipped, an exact match returns at once, and at the end the
      best item is returned when its score is above 0. */
  function ScanItems(items: seq<Json>, q: string, prefer: Lang, acc: Scan): MatchOutcome
    requires acc.Best?
    decreases |items|
  {
    if items == [] then Found(if acc.score > 0 then acc.best else None)
    else if !items[0].JObj? then ScanItems(items[1..], q, prefer, acc)
    else if Crashes(items[0]) then Raised
    else
      match ScanCandidates(items[0], Candidates(items[0]), q, prefer, acc)
      case Exact(x) => Found(Some(x))
      case next => ScanItems(items[1..], q, prefer, next)
  }

  /** `ctx.get("items", [])`. */
  function ItemsOf(ctx: Json): Json
    requires ctx.JObj?
  {
    Lookup(ctx.members, "items").GetOr(JArr([]))
  }

  /** `_find_menu_item_match(query, prefer_lang=prefer)` against the menu
      snapshot `ctx`: nothing without a (truthy) snapshot, a raise when the
      snapshot is not a dict, nothing when `items` is not a list or the query
      normalizes to the empty text; `items` defaults to the empty list. */
  function MatchMenu(ctx: Json, query: string, prefer: Lang): MatchOutcome
  {
    if !Truthy(ctx) then Found(None)
    else if !ctx.JObj? then Raised
    else
      var items := ItemsOf(ctx);
      if !items.JArr? then Found(None)
      else
        var q := Normalize(query);
        if q == [] then Found(None) else ScanItems(items.elems, q, prefer, Best(None, 0))
  }

  // ---------------------------------------------------------------------------
  // Reference definitions

  /** Some candidate of the item is the query itself. */
  predicate IsExact(item: Json, q: string)
  {
    Readable(item) && exists i :: 0 <= i < |Candidates(item)| && Candidates(item)[i].1 == q
  }

  /** The best score among a list of candidates (0 for none). */
  function MaxScore(cs: seq<(Lang, string)>, q: string, prefer: Lang): nat
    decreases |cs|
  {
    if cs == [] then 0
    else
      var s := Score(q, cs[0].1, cs[0].0, prefer);
      var rest := MaxScore(cs[1..], q, prefer);
      if s > rest then s else rest
  }

  /** The item's score: the best of its candidates; 0 for an item that is not
      a dict or whose names cannot be read. */
  function ItemScore(item: Json, q: string, prefer: Lang): nat
  {
    if Readable(item) then MaxScore(Candidates(item), q, prefer) else 0
  }

  /** An item the matcher can return: a readable dict with a non-empty name. */
  predicate Matchable(item: Json)
  {
    Readable(item) && Candidates(item) != []
  }

  // ---------------------------------------------------------------------------
  // Lemmas

  /** An exact match is an item whose normalized Arabic or English name is
      the (non-empty) normalized query. */
  lemma IsExactIff(item: Json, q: string)
    requires Readable(item) && q != []
    ensures IsExact(item, q) <==> NormName(item, "name_ar") == q || NormName(item, "name_en") == q
  {
    var ar := NormName(item, "name_ar");
    var en := NormName(item, "name_en");
    CandidateListExact(ar, en, q);
    if ar == q || en == q {
      var i :| 0 <= i < |CandidateList(ar, en)| && CandidateList(ar, en)[i].1 == q;
      assert Candidates(item)[i].1 == q;
    }
  }

  lemma CandidateListExact(ar: string, en: string, q: string)
    requires q != []
    ensures (exists i :: 0 <= i < |CandidateList(ar, en)| && CandidateList(ar, en)[i].1 == q) <==> ar == q || en == q
  {
    var cs := CandidateList(ar, en);
    if ar == q {
      assert cs[0].1 == q;
    } else if en == q {
      assert cs[|cs| - 1].1 == q;
    } else {
      assert forall i :: 0 <= i < |cs| ==> cs[i].1 == ar || cs[i].1 == en;
    }
  }

  /** Over candidates none of which is exact, the inner loop keeps the best
      item and raises the score to the item's best candidate score, taking
      the item only when that beats the score so far. */
  lemma {:induction false} ScanCandidatesBest(item: Json, cs: seq<(Lang, string)>, q: string, prefer: Lang, b: Option<Json>, s: nat)
    requires forall i :: 0 <= i < |cs| ==> cs[i].1 != q
    ensures ScanCandidates(item, cs, q, prefer, Best(b, s))
      == if MaxScore(cs, q, prefer) > s then Best(Some(item), MaxScore(cs, q, prefer)) else Best(b, s)
    decreases |cs|
  {
    if cs != [] {
      var sc := Score(q, cs[0].1, cs[0].0, prefer);
      assert forall i :: 0 <= i < |cs[1..]| ==> cs[1..][i] == cs[i + 1];
      if sc > s {
        ScanCandidatesBest(item, cs[1..], q, prefer, Some(item), sc);
      } else {
        ScanCandidatesBest(item, cs[1..], q, prefer, b, s);
      }
    }
  }

  /** With an exact candidate, the inner loop ends on it. */
  lemma {:induction false} ScanCandidatesExact(item: Json, cs: seq<(Lang, string)>, q: string, prefer: Lang, acc: Scan)
    requires acc.Best?
    requires exists i :: 0 <= i < |cs| && cs[i].1 == q
    ensures ScanCandidates(item, cs, q, prefer, acc) == Exact(item)
    decreases |cs|
  {
    if cs[0].1 != q {
      var i :| 0 <= i < |cs| && cs[i].1 == q;
      assert cs[1..][i - 1] == cs[i];
      var s := Score(q, cs[0].1, cs[0].0, prefer);
      ScanCandidatesExact(item, cs[1..], q, prefer, if s > acc.score then Best(Some(item), s) else acc);
    }
  }

  /** Whatever the inner loop keeps as the best is the item or what it had. */
  lemma {:induction false} ScanCandidatesKeeps(item: Json, cs: seq<(Lang, string)>, q: string, prefer: Lang, acc: Scan)
    requires acc.Best?
    ensures ScanCandidates(item, cs, q, prefer, acc) == Exact(item)
      || (ScanCandidates(item, cs, q, prefer, acc).Best?
          && ScanCandidates(item, cs, q, prefer, acc).best in {acc.best, Some(item)})
    ensures ScanCandidates(item, cs, q, prefer, acc).Best? && ScanCandidates(item, cs, q, prefer, acc).score > acc.score
      ==> ScanCandidates(item, cs, q, prefer, acc).best == Some(item) && cs != []
    ensures ScanCandidates(item, cs, q, prefer, acc).Exact? ==> cs != []
    decreases |cs|
  {
    if cs != [] && cs[0].1 != q {
      var s := Score(q, cs[0].1, cs[0].0, prefer);
      ScanCandidatesKeeps(item, cs[1..], q, prefer, if s > acc.score then Best(Some(item), s) else acc);
    }
  }

  /** The matcher returns only items of the list (or the running best it was
      given), and only readable dict items with a non-empty name. */
  lemma {:induction false} ScanItemsFound(items: seq<Json>, q: string, prefer: Lang, acc: Scan)
    requires acc.Best? && (acc.best.Some? ==> Matchable(acc.best.value))
    ensures ScanItems(items, q, prefer, acc).Found? && ScanItems(items, q, prefer, acc).item.Some? ==>
      var x := ScanItems(items, q, prefer, acc).item.value;
      Matchable(x) && (x in items || acc.best == Some(x))
    decreases |items|
  {
    if items != [] {
      var it := items[0];
      if !it.JObj? {
        ScanItemsFound(items[1..], q, prefer, acc);
      } else if !Crashes(it) {
        var cs := Candidates(it);
        var r := ScanCandidates(it, cs, q, prefer, acc);
        ScanCandidatesKeeps(it, cs, q, prefer, acc);
        ScanCandidatesStaysOrTakes(it, cs, q, prefer, acc);
        if r.Best? {
          ScanItemsFound(items[1..], q, prefer, r);
        }
      }
    }
  }

  /** The inner loop takes the item only by raising the score. */
  lemma {:induction false} ScanCandidatesStaysOrTakes(item: Json, cs: seq<(Lang, string)>, q: string, prefer: Lang, acc: Scan)
    requires acc.Best?
    ensures ScanCandidates(item, cs, q, prefer, acc).Best? ==> ScanCandidates(item, cs, q, prefer, acc).score >= acc.score
    ensures ScanCandidates(item, cs, q, prefer, acc).Best? && ScanCandidates(item, cs, q, prefer, acc).best != acc.best
      ==> ScanCandidates(item, cs, q, prefer, acc).score > acc.score
    decreases |cs|
  {
    if cs != [] && cs[0].1 != q {
      var s := Score(q, cs[0].1, cs[0].0, prefer);
      ScanCandidatesStaysOrTakes(item, cs[1..], q, prefer, if s > acc.score then Best(Some(item), s) else acc);
    }
  }

  /** The running state after an item that neither raises nor matches exactly. */
  function Advance(it: Json, q: string, prefer: Lang, acc: Scan): (r: Scan)
    requires acc.Best? && !Crashes(it) && !IsExact(it, q)
    ensures r.Best?
  {
    if !it.JObj? then acc
    else
      var cs := Candidates(it);
      ScanCandidatesBest(it, cs, q, prefer, acc.best, acc.score);
      ScanCandidates(it, cs, q, prefer, acc)
  }

  lemma ScanStep(items: seq<Json>, q: string, prefer: Lang, acc: Scan)
    requires acc.Best? && items != [] && !Crashes(items[0]) && !IsExact(items[0], q)
    ensures ScanItems(items, q, prefer, acc) == ScanItems(items[1..], q, prefer, Advance(items[0], q, prefer, acc))
  {
    var it := items[0];
    if it.JObj? {
      ScanCandidatesBest(it, Candidates(it), q, prefer, acc.best, acc.score);
    }
  }

  /** The conditions on the items before `k` carry over to the rest of the list. */
  lemma ShiftPrefix(items: seq<Json>, q: string, k: nat)
    requires 0 < k <= |items|
    requires forall j :: 0 <= j < k ==> !Crashes(items[j]) && !IsExact(items[j], q)
    ensures forall j :: 0 <= j < k - 1 ==> !Crashes(items[1..][j]) && !IsExact(items[1..][j], q)
  {
    forall j | 0 <= j < k - 1
      ensures !Crashes(items[1..][j]) && !IsExact(items[1..][j], q)
    {
      assert items[1..][j] == items[j + 1];
    }
  }

  /** An exact match returns the first item that has one, provided no item
      before it raises. */
  lemma ExactMatchWins(items: seq<Json>, q: string, prefer: Lang, acc: Scan, k: nat)
    requires acc.Best? && k < |items| && IsExact(items[k], q)
    requires forall j :: 0 <= j < k ==> !Crashes(items[j]) && !IsExact(items[j], q)
    ensures ScanItems(items, q, prefer, acc) == Found(Some(items[k]))
  {
    var at := ScanSkips(items, q, prefer, acc, k);
    assert items[k..][0] == items[k];
    ExactAtHead(items[k..], q, prefer, at);
  }

  /** Passing over items that neither raise nor match exactly leaves the
      scan to go on from the rest with some running best. */
  lemma {:induction false} ScanSkips(items: seq<Json>, q: string, prefer: Lang, acc: Scan, k: nat) returns (at: Scan)
    requires acc.Best? && k <= |items|
    requires forall j :: 0 <= j < k ==> !Crashes(items[j]) && !IsExact(items[j], q)
    ensures at.Best? && ScanItems(items, q, prefer, acc) == ScanItems(items[k..], q, prefer, at)
    decreases k
  {
    if k == 0 {
      assert items[0..] == items;
      at := acc;
    } else {
      var next := SkipFirst(items, q, prefer, acc, k);
      at := ScanSkips(items[1..], q, prefer, next, k - 1);
      assert items[1..][k - 1..] == items[k..];
    }
  }

  /** Passing over a first item that neither raises nor matches exactly:
      the scan goes on from the rest with the advanced accumulator, and the
      conditions on the items before `k` carry over. */
  lemma SkipFirst(items: seq<Json>, q: string, prefer: Lang, acc: Scan, k: nat) returns (next: Scan)
    requires acc.Best? && 0 < k <= |items|
    requires forall j :: 0 <= j < k ==> !Crashes(items[j]) && !IsExact(items[j], q)
    ensures next.Best?
    ensures ScanItems(items, q, prefer, acc) == ScanItems(items[1..], q, prefer, next)
    ensures forall j :: 0 <= j < k - 1 ==> !Crashes(items[1..][j]) && !IsExact(items[1..][j], q)
  {
    ScanStep(items, q, prefer, acc);
    ShiftPrefix(items, q, k);
    next := Advance(items[0], q, prefer, acc);
  }

  lemma ExactAtHead(items: seq<Json>, q: string, prefer: Lang, acc: Scan)
    requires acc.Best? && items != [] && IsExact(items[0], q)
    ensures ScanItems(items, q, prefer, acc) == Found(Some(items[0]))
  {
    var it := items[0];
    var cs := Candidates(it);
    var i :| 0 <= i < |cs| && cs[i].1 == q;
    ScanCandidatesExact(it, cs, q, prefer, acc);
  }

  /** An item whose names cannot be read makes the matcher raise, unless an
      exact match comes before it. */
  lemma UnreadableNameRaises(items: seq<Json>, q: string, prefer: Lang, acc: Scan, k: nat)
    requires acc.Best? && k < |items| && Crashes(items[k])
    requires forall j :: 0 <= j < k ==> !Crashes(items[j]) && !IsExact(items[j], q)
    ensures ScanItems(items, q, prefer, acc) == Raised
  {
    var at := ScanSkips(items, q, prefer, acc, k);
    assert items[k..][0] == items[k];
  }

  /** `k` is the first of the items with the highest score. */
  predicate FirstBest(items: seq<Json>, k: int, q: string, prefer: Lang)
  {
    && 0 <= k < |items|
    && (forall j :: 0 <= j < |items| ==> ItemScore(items[j], q, prefer) <= ItemScore(items[k], q, prefer))
    && (forall j :: 0 <= j < k ==> ItemScore(items[j], q, prefer) < ItemScore(items[k], q, prefer))
  }

  /** The items' scores, in order. */
  function Scores(items: seq<Json>, q: string, prefer: Lang): (sc: seq<nat>)
    ensures |sc| == |items| && forall j :: 0 <= j < |items| ==> sc[j] == ItemScore(items[j], q, prefer)
  {
    seq(|items|, j requires 0 <= j < |items| => ItemScore(items[j], q, prefer))
  }

  /** `k` is the first position of the highest score in `sc`. */
  predicate FirstMax(sc: seq<nat>, k: int)
  {
    && 0 <= k < |sc|
    && (forall j :: 0 <= j < |sc| ==> sc[j] <= sc[k])
    && (forall j :: 0 <= j < k ==> sc[j] < sc[k])
  }

  /** The running best kept over items with the given scores: an item
      replaces it only with a strictly higher score. */
  function PickBest(items: seq<Json>, sc: seq<nat>, acc: Scan): (r: Scan)
    requires |items| == |sc| && acc.Best?
    ensures r.Best?
    decreases |items|
  {
    if items == [] then acc
    else PickBest(items[1..], sc[1..], if sc[0] > acc.score then Best(Some(items[0]), sc[0]) else acc)
  }

  /** When no score beats the running one, the running best stays. */
  lemma {:induction false} PickKeeps(items: seq<Json>, sc: seq<nat>, b: Option<Json>, s: nat)
    requires |items| == |sc| && forall j :: 0 <= j < |sc| ==> sc[j] <= s
    ensures PickBest(items, sc, Best(b, s)) == Best(b, s)
    decreases |items|
  {
    if items != [] {
      assert forall j :: 0 <= j < |sc[1..]| ==> sc[1..][j] == sc[j + 1];
      PickKeeps(items[1..], sc[1..], b, s);
    }
  }

  /** When some score beats the running one, the first item of highest
      score is kept, with its score. */
  lemma {:induction false} PickFirst(items: seq<Json>, sc: seq<nat>, b: Option<Json>, s: nat) returns (k: nat)
    requires |items| == |sc| && exists j :: 0 <= j < |sc| && sc[j] > s
    ensures FirstMax(sc, k) && sc[k] > s
    ensures PickBest(items, sc, Best(b, s)) == Best(Some(items[k]), sc[k])
    decreases |items|
  {
    var tail := sc[1..];
    assert forall j :: 0 <= j < |tail| ==> tail[j] == sc[j + 1];
    var top := if sc[0] > s then sc[0] else s;
    var next := if sc[0] > s then Some(items[0]) else b;
    if exists j :: 0 <= j < |tail| && tail[j] > top {
      var k' := PickFirst(items[1..], tail, next, top);
      k := k' + 1;
      assert items[1..][k'] == items[k];
    } else {
      var j :| 0 <= j < |sc| && sc[j] > s;
      assert j == 0 || tail[j - 1] == sc[j];
      PickKeeps(items[1..], tail, next, top);
      k := 0;
    }
  }

  /** Over items that neither raise nor match exactly, the scan keeps the
      running best as `PickBest` does on the items' scores. */
  lemma {:induction false} ScanIsPick(items: seq<Json>, q: string, prefer: Lang, acc: Scan)
    requires acc.Best?
    requires forall j :: 0 <= j < |items| ==> !Crashes(items[j]) && !IsExact(items[j], q)
    ensures var r := PickBest(items, Scores(items, q, prefer), acc);
      ScanItems(items, q, prefer, acc) == Found(if r.score > 0 then r.best else None)
    decreases |items|
  {
    if items != [] {
      var sc := Scores(items, q, prefer);
      var tail := Scores(items[1..], q, prefer);
      assert sc[1..] == tail by {
        forall j | 0 <= j < |tail|
          ensures sc[1..][j] == tail[j]
        {
          assert items[1..][j] == items[j + 1];
        }
      }
      var next := if sc[0] > acc.score then Best(Some(items[0]), sc[0]) else acc;
      assert PickBest(items, sc, acc) == PickBest(items[1..], tail, next);
      BestStep(items, q, prefer, acc.best, acc.score);
      ShiftPrefix(items, q, |items|);
      ScanIsPick(items[1..], q, prefer, next);
    }
  }

  /** Without exact matches or unreadable names, the scan ends on the first
      item of highest score when that beats the running score, and on the
      running best otherwise. */
  lemma BestScoreWins(items: seq<Json>, q: string, prefer: Lang, b: Option<Json>, s: nat)
    requires forall j :: 0 <= j < |items| ==> !Crashes(items[j]) && !IsExact(items[j], q)
    ensures (forall j :: 0 <= j < |items| ==> ItemScore(items[j], q, prefer) <= s)
      ==> ScanItems(items, q, prefer, Best(b, s)) == Found(if s > 0 then b else None)
    ensures (exists j :: 0 <= j < |items| && ItemScore(items[j], q, prefer) > s)
      ==> exists k :: FirstBest(items, k, q, prefer) && ItemScore(items[k], q, prefer) > s
           && ScanItems(items, q, prefer, Best(b, s)) == Found(Some(items[k]))
  {
    var sc := Scores(items, q, prefer);
    ScanIsPick(items, q, prefer, Best(b, s));
    if exists j :: 0 <= j < |items| && ItemScore(items[j], q, prefer) > s {
      var k := PickFirst(items, sc, b, s);
      assert FirstBest(items, k, q, prefer);
    } else {
      PickKeeps(items, sc, b, s);
    }
  }

  /** One item that neither raises nor matches exactly: the running best
      moves to it exactly when its score beats the running score. */
  lemma BestStep(items: seq<Json>, q: string, prefer: Lang, b: Option<Json>, s: nat)
    requires items != [] && !Crashes(items[0]) && !IsExact(items[0], q)
    ensures ScanItems(items, q, prefer, Best(b, s)) == ScanItems(items[1..], q, prefer,
      if ItemScore(items[0], q, prefer) > s then Best(Some(items[0]), ItemScore(items[0], q, prefer)) else Best(b, s))
  {
    var it := items[0];
    if it.JObj? {
      ScanCandidatesBest(it, Candidates(it), q, prefer, b, s);
    }
  }

  // ---------------------------------------------------------------------------
  // The whole call

  /** Without a snapshot, with a snapshot whose `items` is not a list, or
      with a query that normalizes to nothing, the matcher finds nothing. */
  lemma MatchMenuNothing(ctx: Json, query: string, prefer: Lang)
    ensures !Truthy(ctx) ==> MatchMenu(ctx, query, prefer) == Found(None)
    ensures ctx.JObj? && !ItemsOf(ctx).JArr? ==> MatchMenu(ctx, query, prefer) == Found(None)
    ensures ctx.JObj? && Normalize(query) == [] ==> MatchMenu(ctx, query, prefer) == Found(None)
    ensures Truthy(ctx) && !ctx.JObj? ==> MatchMenu(ctx, query, prefer) == Raised
  {
  }

  /** A found item is one of the snapshot's items, and a readable dict with
      a non-empty name. */
  lemma MatchMenuFound(ctx: Json, query: string, prefer: Lang)
    requires MatchMenu(ctx, query, prefer).Found? && MatchMenu(ctx, query, prefer).item.Some?
    ensures ctx.JObj? && ItemsOf(ctx).JArr?
    ensures MatchMenu(ctx, query, prefer).item.value in ItemsOf(ctx).elems
    ensures Matchable(MatchMenu(ctx, query, prefer).item.value)
  {
    ScanItemsFound(ItemsOf(ctx).elems, Normalize(query), prefer, Best(None, 0));
  }

  /** The first item with an exact match is returned when no item before it
      raises. */
  lemma MatchMenuExact(ctx: Json, query: string, prefer: Lang, k: nat)
    requires ctx.JObj? && ItemsOf(ctx).JArr? && k < |ItemsOf(ctx).elems|
    requires IsExact(ItemsOf(ctx).elems[k], Normalize(query))
    requires forall j :: 0 <= j < k ==>
      !Crashes(ItemsOf(ctx).elems[j]) && !IsExact(ItemsOf(ctx).elems[j], Normalize(query))
    ensures MatchMenu(ctx, query, prefer) == Found(Some(ItemsOf(ctx).elems[k]))
  {
    var items := ItemsOf(ctx).elems;
    var q := Normalize(query);
    var it := items[k];
    var i :| 0 <= i < |Candidates(it)| && Candidates(it)[i].1 == q;
    assert q != [];
    assert Truthy(ctx) by {
      assert Lookup(ctx.members, "items").Some?;
    }
    ExactMatchWins(items, q, prefer, Best(None, 0), k);
  }

  /** With neither exact matches nor unreadable names, nothing is found
      exactly when every item scores 0, and otherwise the first item of
      highest score is returned: a later item with the same score does not
      replace it. */
  lemma MatchMenuBest(ctx: Json, query: string, prefer: Lang)
    requires ctx.JObj? && ItemsOf(ctx).JArr? && Normalize(query) != []
    requires forall j :: 0 <= j < |ItemsOf(ctx).elems| ==>
      !Crashes(ItemsOf(ctx).elems[j]) && !IsExact(ItemsOf(ctx).elems[j], Normalize(query))
    ensures MatchMenu(ctx, query, prefer).Found?
    ensures MatchMenu(ctx, query, prefer).item.None? <==>
      forall j :: 0 <= j < |ItemsOf(ctx).elems| ==> ItemScore(ItemsOf(ctx).elems[j], Normalize(query), prefer) == 0
    ensures MatchMenu(ctx, query, prefer).item.Some? ==>
      exists k :: FirstBest(ItemsOf(ctx).elems, k, Normalize(query), prefer)
        && MatchMenu(ctx, query, prefer).item.value == ItemsOf(ctx).elems[k]
        && ItemScore(ItemsOf(ctx).elems[k], Normalize(query), prefer) > 0
  {
    var items := ItemsOf(ctx).elems;
    var q := Normalize(query);
    MatchMenuScans(ctx, query, prefer);
    BestScoreWins(items, q, prefer, None, 0);
    if exists j :: 0 <= j < |items| && ItemScore(items[j], q, prefer) > 0 {
      var k :| FirstBest(items, k, q, prefer) && ItemScore(items[k], q, prefer) > 0
        && ScanItems(items, q, prefer, Best(None, 0)) == Found(Some(items[k]));
    }
  }

  /** With a dict snapshot whose `items` is a list and a query that does not
      normalize to nothing, the matcher is the scan of that list from
      nothing found and score 0. */
  lemma MatchMenuScans(ctx: Json, query: string, prefer: Lang)
    requires ctx.JObj? && ItemsOf(ctx).JArr? && Normalize(query) != []
    ensures MatchMenu(ctx, query, prefer) == ScanItems(ItemsOf(ctx).elems, Normalize(query), prefer, Best(None, 0))
  {
    if !Truthy(ctx) {
      assert Lookup(ctx.members, "items").None?;
    }
  }
}
