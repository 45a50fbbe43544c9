/** The guided add/edit dialogue of `MyAgent` as a state machine: the flow
    state, one user turn (`on_user_turn_completed`,
    src/voice_assistant.py:203-336) and the reply the agent speaks next
    (`llm_node`, src/voice_assistant.py:338-410). `VoiceAssistant.MyAgent`
    runs these on its fields. */
module DialogueFlow {
  import opened Wrappers
  import opened JsonValues
  import opened Text
  import opened MenuModel
  import opened Utterance
  import opened MenuMatch
  import opened MenuCommands

  /** The edit flow's `step`. */
  datatype Step = TargetStep | FieldChoiceStep | FieldValueStep | ConfirmStep

  /** `self._flow`: no flow, the add flow or the edit flow, with the keys each
      of them carries. */
  datatype Flow =
    | NoFlow
    | AddFlow(fields: MenuFields, pending: Option<Field>, awaitingConfirm: bool)
    | EditFlow(step: Step, targetName: Option<string>, matchLang: Option<Lang>,
               matchedItem: Option<Json>, pendingField: Option<Field>, fields: MenuFields)

  // The replies a turn forces.
  const Cancelled := "Okay, cancelled."
  const ItemAdded := "Item added successfly thank you!."
  const AddDeclined := "Okay, I will not add it."
  const ConfirmYesNo := "Please confirm with yes or no."
  const ItemUpdated := "Item updated."
  const UpdateDeclined := "Okay, I will not update it."

  /** A new add flow: all five fields `None`, asking for the Arabic name. */
  const FreshAdd: Flow := AddFlow(NoFields, Some(NameAr), false)

  /** A new edit flow: asking for the item's name, no changes yet. */
  const FreshEdit: Flow := EditFlow(TargetStep, None, None, None, None, NoFields)

  // ---------------------------------------------------------------------------
  // Next missing field

  /** The first field of `fs` whose value is missing. */
  function FirstMissing(m: MenuFields, fs: seq<Field>): (r: Option<Field>)
    ensures r.Some? ==> IsMissing(m, r.value)
    ensures r.Some? ==> exists i :: 0 <= i < |fs| && fs[i] == r.value && forall j :: 0 <= j < i ==> !IsMissing(m, fs[j])
    ensures r.None? ==> forall j :: 0 <= j < |fs| ==> !IsMissing(m, fs[j])
  {
    if fs == [] then None
    else if IsMissing(m, fs[0]) then
      assert fs[0] == fs[0];
      Some(fs[0])
    else
      var r := FirstMissing(m, fs[1..]);
      assert forall j :: 0 <= j < |fs| - 1 ==> fs[1..][j] == fs[j + 1];
      if r.Some? then
        var i :| 0 <= i < |fs[1..]| && fs[1..][i] == r.value && forall j :: 0 <= j < i ==> !IsMissing(m, fs[1..][j]);
        assert fs[i + 1] == r.value;
        r
      else r
  }

  /** `_next_missing_add_field`: the first field, in the fixed order, whose
      value is `None` or `""`. */
  function NextMissing(m: MenuFields): (r: Option<Field>)
    ensures r.Some? ==> IsMissing(m, r.value) && forall g :: Rank(g) < Rank(r.value) ==> !IsMissing(m, g)
    ensures r.None? <==> forall g :: !IsMissing(m, g)
  {
    FirstMissingInOrder(m);
    FirstMissing(m, FieldOrder)
  }

  lemma FirstMissingInOrder(m: MenuFields)
    ensures FirstMissing(m, FieldOrder).Some? ==> forall g :: Rank(g) < Rank(FirstMissing(m, FieldOrder).value) ==> !IsMissing(m, g)
    ensures FirstMissing(m, FieldOrder).None? ==> forall g :: !IsMissing(m, g)
  {
    FieldOrderRanks();
    var r := FirstMissing(m, FieldOrder);
    if r.Some? {
      var i :| 0 <= i < 5 && FieldOrder[i] == r.value && forall j :: 0 <= j < i ==> !IsMissing(m, FieldOrder[j]);
      assert Rank(r.value) == i;
      forall g | Rank(g) < i
        ensures !IsMissing(m, g)
      {
        assert FieldOrder[Rank(g)] == g;
      }
    } else {
      forall g
        ensures !IsMissing(m, g)
      {
        assert FieldOrder[Rank(g)] == g;
      }
    }
  }

  // ---------------------------------------------------------------------------
  // Invariant

  /** The edit flow's changes: at most the chosen field has a value. */
  predicate OnlyField(fields: MenuFields, f: Option<Field>)
  {
    forall g :: Some(g) != f ==> (if g == Price then fields.price.None? else TextOf(fields, g).None?)
  }

  /** No text field holds the empty string. */
  predicate NoEmptyText(fields: MenuFields)
  {
    forall g :: g != Price ==> TextOf(fields, g) != Some("")
  }

  /** The text a matched item's name is spoken back as: the string stored
      under the key, or `""` when there is none. The matcher only returns
      items whose names are strings or falsy, so this is `item.get(key) or ""`. */
  function RawName(item: Json, key: string): string
    requires item.JObj?
  {
    var v := Get(item.members, key);
    if v.JStr? then v.s else ""
  }

  /** What a flow state can be between turns. The add flow always asks for
      the first missing field and waits for a confirmation exactly when none
      is missing. The edit flow has chosen a target once past the first step,
      a field once past the second, and changes at most that field; a matched
      item is one the matcher can return and the target is one of its names. */
  predicate ValidFlow(flow: Flow)
  {
    match flow
    case NoFlow => true
    case AddFlow(fields, pending, awaiting) =>
      pending == NextMissing(fields) && (awaiting <==> pending.None?)
    case EditFlow(step, target, lang, matched, pendingField, fields) =>
      && (step == TargetStep <==> target.None?)
      && (step == TargetStep <==> lang.None?)
      && (step == TargetStep ==> matched.None?)
      && (step == TargetStep || step == FieldChoiceStep <==> pendingField.None?)
      && (step != ConfirmStep ==> fields == NoFields)
      && OnlyField(fields, pendingField)
      && NoEmptyText(fields)
      && (matched.Some? ==> Matchable(matched.value) && target.Some? && target.value != []
                            && target.value in {RawName(matched.value, "name_ar"), RawName(matched.value, "name_en")})
  }

  // ---------------------------------------------------------------------------
  // One turn

  /** What a turn does: it raises (the matcher hit a name it cannot read; the
      session is left as it was), or it gives the next flow, the forced reply
      and the command published on the menu-edit channel, if any. */
  datatype TurnResult = Raises | Next(flow: Flow, forced: Option<string>, command: Option<Payload>)

  /** What a turn reads from the utterance, each through the helper the
      source calls on it. */
  datatype Heard = Heard(
    normalized: string,       // `_normalize_text(user_text)`
    yes: bool,                // `_is_yes(user_text)`
    no: bool,                 // `_is_no(user_text)`
    addIntent: bool,          // `_detect_add_intent(user_text)`
    editIntent: bool,         // `_detect_edit_intent(user_text)`
    price: Option<real>,      // `_parse_price(user_text)`
    cleaned: string,          // `_clean_value(user_text)`
    stripped: string,         // `user_text.strip()`
    choice: Option<Field>)    // `_field_choice_from_text(user_text)`

  function Hear(text: string): Heard
  {
    Heard(Normalize(text), IsYes(text), IsNo(text), DetectAddIntent(text), DetectEditIntent(text),
      ParsePrice(text), CleanValue(text), Strip(text), FieldChoice(text))
  }

  /** An utterance that does not normalize to nothing is not blank. */
  predicate Coherent(h: Heard)
  {
    h.normalized != [] ==> h.stripped != []
  }

  lemma HearCoherent(text: string)
    ensures Coherent(Hear(text))
  {
    if Normalize(text) != [] {
      NormalizedNonEmptyHasContent(text);
    }
  }

  /** "cancel" or "stop" on its own. */
  predicate IsCancel(h: Heard)
  {
    h.normalized == "cancel" || h.normalized == "stop"
  }

  /** The answer to an add-flow question: a price is stored only when one can
      be read from the utterance; any other field gets the cleaned value,
      unless the utterance normalizes to nothing. */
  function StoreAddAnswer(fields: MenuFields, f: Field, h: Heard): MenuFields
  {
    if f == Price then
      match h.price
      case Some(p) => fields.(price := Some(p))
      case None => fields
    else if h.normalized != [] then WithText(fields, f, h.cleaned)
    else fields
  }

  /** The answer to the edit flow's value question: as in the add flow, but a
      text value is only stripped, not cleaned. */
  function StoreEditAnswer(fields: MenuFields, f: Field, h: Heard): MenuFields
  {
    if f == Price then
      match h.price
      case Some(p) => fields.(price := Some(p))
      case None => fields
    else if h.normalized != [] then WithText(fields, f, h.stripped)
    else fields
  }

  /** The target name once the matcher found `item`: its name in the
      language spoken when it has one, else its English name, else its
      Arabic name, else what was said. */
  function MatchedName(item: Json, lang: Lang, cleaned: string): string
    requires item.JObj?
  {
    var ar := RawName(item, "name_ar");
    var en := RawName(item, "name_en");
    if lang == Ar && ar != [] then ar
    else if lang == En && en != [] then en
    else if en != [] then en
    else if ar != [] then ar
    else cleaned
  }

  /** A turn of the add flow. */
  function AddTurn(fields: MenuFields, pending: Option<Field>, awaiting: bool, forced: Option<string>, h: Heard): TurnResult
  {
    if awaiting then
      if h.yes then Next(NoFlow, Some(ItemAdded), Some(FlowAddCommand(fields)))
      else if h.no then Next(NoFlow, Some(AddDeclined), None)
      else Next(AddFlow(fields, pending, awaiting), Some(ConfirmYesNo), None)
    else
      var fields' := if pending.Some? then StoreAddAnswer(fields, pending.value, h) else fields;
      var next := NextMissing(fields');
      Next(AddFlow(fields', next, next.None?), forced, None)
  }

  /** The language a cleaned name is taken to be in. */
  function SpokenLang(cleaned: string): Lang
  {
    if HasArabic(cleaned) then Ar else En
  }

  /** The target-name step: the cleaned answer is looked up in the menu,
      preferring Arabic names when it contains Arabic script. */
  function TargetTurn(flow: Flow, forced: Option<string>, menu: Json, h: Heard): TurnResult
    requires flow.EditFlow?
  {
    if h.normalized == [] then Next(flow, forced, None)
    else
      var lang := SpokenLang(h.cleaned);
      var moved := flow.(step := FieldChoiceStep, matchLang := Some(lang));
      match MatchMenu(menu, h.cleaned, lang)
      case Raised => Raises
      case Found(found) =>
        if found.Some? && Truthy(found.value) && found.value.JObj? then
          Next(moved.(matchedItem := found, targetName := Some(MatchedName(found.value, lang, h.cleaned))), forced, None)
        else
          Next(moved.(targetName := Some(h.cleaned)), forced, None)
  }

  /** A turn of the edit flow. */
  function EditTurn(flow: Flow, forced: Option<string>, menu: Json, h: Heard): TurnResult
    requires flow.EditFlow? && ValidFlow(flow)
  {
    match flow.step
    case TargetStep => TargetTurn(flow, forced, menu, h)
    case FieldChoiceStep =>
      (match h.choice
       case None => Next(flow, forced, None)
       case Some(f) => Next(flow.(pendingField := Some(f), step := FieldValueStep), forced, None))
    case FieldValueStep =>
      var fields' := if flow.pendingField.Some? then StoreEditAnswer(flow.fields, flow.pendingField.value, h) else flow.fields;
      Next(flow.(fields := fields', step := ConfirmStep), forced, None)
    case ConfirmStep =>
      if h.yes then
        Next(NoFlow, Some(ItemUpdated), Some(FlowUpdateCommand(flow.matchLang.value, flow.targetName.value, flow.fields)))
      else if h.no then Next(NoFlow, Some(UpdateDeclined), None)
      else Next(flow, Some(ConfirmYesNo), None)
  }

  /** A turn with no flow: an add request is checked before an edit request. */
  function IdleTurn(forced: Option<string>, h: Heard): TurnResult
  {
    if h.addIntent then Next(FreshAdd, forced, None)
    else if h.editIntent then Next(FreshEdit, forced, None)
    else Next(NoFlow, forced, None)
  }

  /** A turn on what was heard: "cancel" or "stop" on its own ends any flow;
      otherwise an active flow takes the turn, and only without one are the
      intents looked at. */
  function Respond(flow: Flow, forced: Option<string>, menu: Json, h: Heard): TurnResult
    requires ValidFlow(flow)
  {
    if IsCancel(h) then Next(NoFlow, Some(Cancelled), None)
    else
      match flow
      case AddFlow(fields, pending, awaiting) => AddTurn(fields, pending, awaiting, forced, h)
      case EditFlow(_, _, _, _, _, _) => EditTurn(flow, forced, menu, h)
      case NoFlow => IdleTurn(forced, h)
  }

  /** `on_user_turn_completed` for the utterance `text`. */
  function Turn(flow: Flow, forced: Option<string>, menu: Json, text: string): TurnResult
    requires ValidFlow(flow)
  {
    Respond(flow, forced, menu, Hear(text))
  }

  // ---------------------------------------------------------------------------
  // The next reply

  /** A piece of a spoken reply: text, or a price as Python prints a float. */
  datatype Part = Words(text: string) | Amount(value: real)

  /** What `llm_node` yields: a fixed reply, or whatever the language model
      says (`Agent.default.llm_node`). */
  datatype Reply = Say(parts: seq<Part>) | Delegate

  /** `value or placeholder` for an optional text field. */
  function OrText(v: Option<string>, placeholder: string): string
  {
    if v.Some? && v.value != [] then v.value else placeholder
  }

  /** The price line's value, or the placeholder when there is no price. */
  function PricePart(p: Option<real>, placeholder: string): Part
  {
    if p.Some? then Amount(p.value) else Words(placeholder)
  }

  /** The summary read back before an item is added. */
  function AddSummary(fields: MenuFields): seq<Part>
  {
    [ Words("Please confirm the details:\nArabic name: " + OrText(fields.nameAr, "(not provided)")
        + "\nEnglish name: " + OrText(fields.nameEn, "(not provided)")
        + "\nArabic description: " + OrText(fields.descriptionAr, "(not provided)")
        + "\nEnglish description: " + OrText(fields.descriptionEn, "(not provided)")
        + "\nPrice: "),
      PricePart(fields.price, "(not provided)"),
      Words("\nDo you want to add this item?") ]
  }

  /** The "Matched item" line of the update summary, empty without a match. */
  function MatchLine(matched: Option<Json>): string
  {
    if matched.Some? && matched.value.JObj? then
      var ar := RawName(matched.value, "name_ar");
      var en := RawName(matched.value, "name_en");
      if ar != [] || en != [] then
        "Matched item: " + (if en != [] then en else "(no English name)") + " / "
          + (if ar != [] then ar else "(no Arabic name)") + "\n"
      else ""
    else ""
  }

  /** The summary read back before an update is applied. */
  function UpdateSummary(target: Option<string>, matched: Option<Json>, fields: MenuFields): seq<Part>
  {
    [ Words("Please confirm the update:\nItem: " + OrText(target, "(not provided)") + "\n" + MatchLine(matched)
        + "Arabic name: " + OrText(fields.nameAr, "(unchanged)")
        + "\nEnglish name: " + OrText(fields.nameEn, "(unchanged)")
        + "\nArabic description: " + OrText(fields.descriptionAr, "(unchanged)")
        + "\nEnglish description: " + OrText(fields.descriptionEn, "(unchanged)")
        + "\nPrice: "),
      PricePart(fields.price, "(unchanged)"),
      Words("\nDo you want to apply this update?") ]
  }

  /** The edit flow's question for the new value of a field. */
  function NewValueQuestion(f: Option<Field>): string
  {
    match f
    case Some(NameAr) => "What is the new Arabic name?"
    case Some(NameEn) => "What is the new English name?"
    case Some(DescriptionAr) => "What is the new Arabic description?"
    case Some(DescriptionEn) => "What is the new English description?"
    case Some(Price) => "What is the new price?"
    case None => "Please provide the new value."
  }

  const AskTarget := "What is the name of the item you want to edit? You can answer in English or Arabic."
  const AskField := "Which field do you want to change? Arabic name, English name, Arabic description, English description, or price?"

  /** `llm_node`: a non-empty forced reply is spoken (and consumed); otherwise
      the flow's question or summary; with no flow the language model answers. */
  function Render(forced: Option<string>, flow: Flow): Reply
  {
    if forced.Some? && forced.value != [] then Say([Words(forced.value)])
    else
      match flow
      case NoFlow => Delegate
      case AddFlow(fields, pending, awaiting) =>
        if awaiting then Say(AddSummary(fields))
        else Say([Words(AddQuestion(pending.GetOr(NameAr)))])
      case EditFlow(step, target, _, matched, pendingField, fields) =>
        match step
        case TargetStep => Say([Words(AskTarget)])
        case FieldChoiceStep => Say([Words(AskField)])
        case FieldValueStep => Say([Words(NewValueQuestion(pendingField))])
        case ConfirmStep => Say(UpdateSummary(target, matched, fields))
  }

  /** The forced reply left after `llm_node`. */
  function AfterRender(forced: Option<string>): Option<string>
  {
    if forced.Some? && forced.value != [] then None else forced
  }

  // ---------------------------------------------------------------------------
  // Lemmas

  /** A matchable item is truthy and has a non-empty Arabic or English name. */
  lemma MatchableHasName(item: Json)
    requires Matchable(item)
    ensures Truthy(item)
    ensures RawName(item, "name_ar") != [] || RawName(item, "name_en") != []
  {
    assert Normalize([]) == [] by {
      NormalizeEmptyIff([]);
    }
    var key := if NormName(item, "name_ar") != [] then "name_ar" else "name_en";
    assert NormName(item, key) != [];
    assert NameArg(item, key).value != [];
    assert Lookup(item.members, key).Some?;
  }

  /** The target name taken from a matched item is one of its non-empty
      names, the one in the language spoken whenever the item has it. */
  lemma MatchedNameIsAName(item: Json, lang: Lang, cleaned: string)
    requires Matchable(item)
    ensures MatchedName(item, lang, cleaned) != []
    ensures MatchedName(item, lang, cleaned) in {RawName(item, "name_ar"), RawName(item, "name_en")}
    ensures RawName(item, KeyOf(lang)) != [] ==> MatchedName(item, lang, cleaned) == RawName(item, KeyOf(lang))
  {
    MatchableHasName(item);
  }

  /** The name key of a language. */
  function KeyOf(lang: Lang): string
  {
    if lang == Ar then "name_ar" else "name_en"
  }

  /** Two records agree on every field but `f`. */
  predicate SameExcept(a: MenuFields, b: MenuFields, f: Field)
  {
    && (f != Price ==> a.price == b.price)
    && forall g :: g != Price && g != f ==> TextOf(a, g) == TextOf(b, g)
  }

  /** Storing an add-flow answer changes the asked field only; it leaves it
      missing exactly when no price can be read from the answer, or the
      answer is blank or cleans to nothing. */
  lemma StoreAddAnswerEffect(fields: MenuFields, f: Field, h: Heard)
    requires IsMissing(fields, f)
    ensures SameExcept(StoreAddAnswer(fields, f, h), fields, f)
    ensures IsMissing(StoreAddAnswer(fields, f, h), f) <==>
      if f == Price then h.price.None? else h.normalized == [] || h.cleaned == []
  {
  }

  /** Storing an edit-flow answer in an empty change set sets at most the
      chosen field, and never to the empty string. */
  lemma StoreEditAnswerEffect(f: Field, h: Heard)
    requires Coherent(h)
    ensures OnlyField(StoreEditAnswer(NoFields, f, h), Some(f))
    ensures NoEmptyText(StoreEditAnswer(NoFields, f, h))
  {
  }

  /** The first missing field of a record with nothing set is the Arabic name. */
  lemma NextMissingOfNoFields()
    ensures NextMissing(NoFields) == Some(NameAr)
  {
    assert IsMissing(NoFields, NameAr);
    FieldOrderRanks();
    assert FieldOrder[Rank(NextMissing(NoFields).value)] == NextMissing(NoFields).value;
  }

  /** Every turn leaves the dialogue in a state `ValidFlow` allows. */
  lemma {:induction false} TurnKeepsValid(flow: Flow, forced: Option<string>, menu: Json, h: Heard)
    requires ValidFlow(flow) && Coherent(h) && Respond(flow, forced, menu, h).Next?
    ensures ValidFlow(Respond(flow, forced, menu, h).flow)
  {
    if IsCancel(h) {
    } else if flow.NoFlow? {
      NextMissingOfNoFields();
    } else if flow.AddFlow? {
      AddTurnKeepsValid(flow, forced, h);
    } else {
      EditTurnKeepsValid(flow, forced, menu, h);
    }
  }

  lemma AddTurnKeepsValid(flow: Flow, forced: Option<string>, h: Heard)
    requires ValidFlow(flow) && flow.AddFlow?
    ensures ValidFlow(AddTurn(flow.fields, flow.pending, flow.awaitingConfirm, forced, h).flow)
  {
  }

  lemma EditTurnKeepsValid(flow: Flow, forced: Option<string>, menu: Json, h: Heard)
    requires ValidFlow(flow) && flow.EditFlow? && Coherent(h) && !IsCancel(h) && EditTurn(flow, forced, menu, h).Next?
    ensures ValidFlow(EditTurn(flow, forced, menu, h).flow)
  {
    match flow.step
    case TargetStep =>
      TargetTurnKeepsValid(flow, forced, menu, h);
    case FieldChoiceStep =>
    case FieldValueStep =>
      ValueTurnKeepsValid(flow, forced, menu, h);
    case ConfirmStep =>
  }

  lemma TargetTurnKeepsValid(flow: Flow, forced: Option<string>, menu: Json, h: Heard)
    requires ValidFlow(flow) && flow.EditFlow? && flow.step == TargetStep && Coherent(h) && !IsCancel(h)
    requires EditTurn(flow, forced, menu, h).Next?
    ensures ValidFlow(EditTurn(flow, forced, menu, h).flow)
  {
    if h.normalized != [] {
      TargetStepEffect(flow, forced, menu, h);
    }
  }

  lemma ValueTurnKeepsValid(flow: Flow, forced: Option<string>, menu: Json, h: Heard)
    requires ValidFlow(flow) && flow.EditFlow? && flow.step == FieldValueStep && Coherent(h)
    ensures EditTurn(flow, forced, menu, h).Next?
    ensures ValidFlow(EditTurn(flow, forced, menu, h).flow)
  {
    StoreEditAnswerEffect(flow.pendingField.value, h);
  }

  /** A turn publishes a command exactly when it confirms: "yes" (which wins
      over a "no" in the same utterance) answering the add flow's
      confirmation question or the edit flow's last step. */
  lemma CommandOnlyOnYes(flow: Flow, forced: Option<string>, menu: Json, h: Heard)
    requires ValidFlow(flow) && Respond(flow, forced, menu, h).Next?
    ensures Respond(flow, forced, menu, h).command.Some? <==>
      && !IsCancel(h) && h.yes
      && ((flow.AddFlow? && flow.awaitingConfirm) || (flow.EditFlow? && flow.step == ConfirmStep))
  {
    if !IsCancel(h) && flow.EditFlow? && flow.step != ConfirmStep {
      EditTurnBeforeConfirm(flow, forced, menu, h);
    }
  }

  /** "cancel" or "stop" on its own ends whatever flow is active, publishes
      nothing and forces the cancellation reply. */
  lemma CancelEndsFlow(flow: Flow, forced: Option<string>, menu: Json, h: Heard)
    requires ValidFlow(flow) && IsCancel(h)
    ensures Respond(flow, forced, menu, h) == Next(NoFlow, Some(Cancelled), None)
    ensures forall text :: Hear(text).normalized == h.normalized ==> Turn(flow, forced, menu, text) == Next(NoFlow, Some(Cancelled), None)
  {
  }

  /** At a confirmation question, an answer that is neither "yes" nor "no"
      keeps the flow exactly as it was, publishes nothing and asks again. */
  lemma ConfirmNeither(flow: Flow, forced: Option<string>, menu: Json, h: Heard)
    requires ValidFlow(flow) && !IsCancel(h) && !h.yes && !h.no
    requires (flow.AddFlow? && flow.awaitingConfirm) || (flow.EditFlow? && flow.step == ConfirmStep)
    ensures Respond(flow, forced, menu, h) == Next(flow, Some(ConfirmYesNo), None)
  {
  }

  /** An active flow ends only by "cancel"/"stop" or by a "yes" or "no" to
      its confirmation question; otherwise it stays in its mode. Intents are
      looked at only when no flow is active. */
  lemma FlowEndsOnlyByAnswer(flow: Flow, forced: Option<string>, menu: Json, h: Heard)
    requires ValidFlow(flow) && flow != NoFlow && Respond(flow, forced, menu, h).Next?
    ensures var t := Respond(flow, forced, menu, h);
      t.flow == NoFlow <==>
        || IsCancel(h)
        || ((h.yes || h.no)
            && ((flow.AddFlow? && flow.awaitingConfirm) || (flow.EditFlow? && flow.step == ConfirmStep)))
    ensures var t := Respond(flow, forced, menu, h);
      t.flow != NoFlow ==> t.flow.AddFlow? == flow.AddFlow?
  {
    if flow.EditFlow? && flow.step != ConfirmStep && !IsCancel(h) {
      EditTurnBeforeConfirm(flow, forced, menu, h);
    }
  }

  /** With no flow, an add request starts the add flow (every field missing,
      the Arabic name asked first); otherwise an edit request starts the edit
      flow at the target step; otherwise nothing starts. Nothing is published
      and the forced reply is left as it was. */
  lemma IdleTurnStarts(forced: Option<string>, menu: Json, h: Heard)
    requires !IsCancel(h)
    ensures var t := Respond(NoFlow, forced, menu, h);
      && t.Next? && t.command.None? && t.forced == forced
      && t.flow == (if h.addIntent then FreshAdd else if h.editIntent then FreshEdit else NoFlow)
    ensures var t := Respond(NoFlow, forced, menu, h);
      t.flow.AddFlow? ==> forall f :: IsMissing(t.flow.fields, f)
    ensures var t := Respond(NoFlow, forced, menu, h);
      t.flow.AddFlow? ==> t.flow.pending == NextMissing(t.flow.fields) == Some(NameAr)
  {
    NextMissingOfNoFields();
  }

  /** An item is only added with all five fields given: both names, both
      descriptions (none of them empty) and the price. */
  lemma AddedItemIsComplete(flow: Flow, forced: Option<string>, menu: Json, h: Heard)
    requires ValidFlow(flow) && flow.AddFlow?
    requires Respond(flow, forced, menu, h).Next? && Respond(flow, forced, menu, h).command.Some?
    ensures var c := Respond(flow, forced, menu, h).command.value;
      c.AddCommand? && c.fields == flow.fields && forall f :: !IsMissing(c.fields, f)
  {
    assert forall f :: !IsMissing(flow.fields, f);
    assert !IsMissing(flow.fields, NameAr) && !IsMissing(flow.fields, NameEn);
    assert !IsMissing(flow.fields, DescriptionAr) && !IsMissing(flow.fields, DescriptionEn);
  }

  /** The update the edit flow publishes addresses the target by the name
      key of the language it was spoken in, changes at most the chosen field,
      and is what the `update_menu_item` tool would publish. */
  lemma UpdateCommandShape(flow: Flow, forced: Option<string>, menu: Json, h: Heard)
    requires ValidFlow(flow) && flow.EditFlow? && flow.step == ConfirmStep
    requires h.yes && !IsCancel(h)
    ensures var t := Respond(flow, forced, menu, h);
      t.Next? && t.command.Some? && t.command.value.UpdateCommand?
    ensures var c := Respond(flow, forced, menu, h).command.value;
      && c.target == (if flow.matchLang == Some(Ar) then MatchKey(flow.targetName, None) else MatchKey(None, flow.targetName))
      && OnlyField(c.fields, flow.pendingField)
    ensures var c := Respond(flow, forced, menu, h).command.value;
      c == UpdatePayload(flow.targetName.value,
        LangCode(flow.matchLang.value), flow.fields.nameAr.GetOr(""), flow.fields.nameEn.GetOr(""),
        flow.fields.descriptionAr.GetOr(""), flow.fields.descriptionEn.GetOr(""), flow.fields.price)
  {
    FlowUpdateIsToolUpdate(flow.matchLang.value, flow.targetName.value, flow.fields);
  }

  /** While collecting, the add flow changes only the asked field and never
      goes back: the next question is for the same field when the answer
      left it missing, and for a later field (or the confirmation) otherwise. */
  lemma {:induction false} AddFlowAdvances(flow: Flow, forced: Option<string>, menu: Json, h: Heard)
    requires ValidFlow(flow) && flow.AddFlow? && !flow.awaitingConfirm
    requires !IsCancel(h)
    ensures var t := Respond(flow, forced, menu, h);
      t.Next? && t.flow.AddFlow? && t.command.None?
    ensures var t := Respond(flow, forced, menu, h);
      && SameExcept(t.flow.fields, flow.fields, flow.pending.value)
      && (t.flow.pending == flow.pending <==> IsMissing(t.flow.fields, flow.pending.value))
      && (t.flow.pending.Some? ==> Rank(t.flow.pending.value) >= Rank(flow.pending.value))
  {
    var p := flow.pending.value;
    var fields' := StoreAddAnswer(flow.fields, p, h);
    StoreAddAnswerEffect(flow.fields, p, h);
    assert Respond(flow, forced, menu, h) == Next(AddFlow(fields', NextMissing(fields'), NextMissing(fields').None?), forced, None);
    FieldOrderRanks();
    forall g | Rank(g) < Rank(p)
      ensures !IsMissing(fields', g)
    {
      assert !IsMissing(flow.fields, g);
      assert g != p;
    }
    var r := NextMissing(fields');
    if r.Some? {
      assert Rank(r.value) >= Rank(p);
      if IsMissing(fields', p) {
        assert Rank(r.value) == Rank(p);
        assert FieldOrder[Rank(r.value)] == r.value && FieldOrder[Rank(p)] == p;
      }
    }
  }

  /** The order of the edit flow's steps. */
  function StepAfter(s: Step): Step
  {
    match s
    case TargetStep => FieldChoiceStep
    case FieldChoiceStep => FieldValueStep
    case FieldValueStep => ConfirmStep
    case ConfirmStep => ConfirmStep
  }

  /** Before its last step, an edit turn publishes nothing and keeps the edit
      flow, on the same step or the next. */
  lemma EditTurnBeforeConfirm(flow: Flow, forced: Option<string>, menu: Json, h: Heard)
    requires ValidFlow(flow) && flow.EditFlow? && flow.step != ConfirmStep && !IsCancel(h)
    requires Respond(flow, forced, menu, h).Next?
    ensures var t := Respond(flow, forced, menu, h);
      && t.command.None? && t.flow.EditFlow?
      && t.flow.step in {flow.step, StepAfter(flow.step)}
      && (flow.step == FieldValueStep ==> t.flow.step == ConfirmStep)
  {
    assert Respond(flow, forced, menu, h) == EditTurn(flow, forced, menu, h);
    if flow.step == TargetStep {
      assert EditTurn(flow, forced, menu, h) == TargetTurn(flow, forced, menu, h);
      if h.normalized != [] {
        TargetStepEffect(flow, forced, menu, h);
      }
    }
  }

  /** The edit flow moves one step forward or stays; the value step always
      moves on, and the flow ends only from its last step. */
  lemma EditFlowSteps(flow: Flow, forced: Option<string>, menu: Json, h: Heard)
    requires ValidFlow(flow) && flow.EditFlow? && Respond(flow, forced, menu, h).Next?
    requires !IsCancel(h)
    ensures var t := Respond(flow, forced, menu, h);
      t.flow == NoFlow ==> flow.step == ConfirmStep
    ensures var t := Respond(flow, forced, menu, h);
      t.flow != NoFlow ==> t.flow.EditFlow? && t.flow.step in {flow.step, StepAfter(flow.step)}
    ensures var t := Respond(flow, forced, menu, h);
      flow.step == FieldValueStep ==> t.flow.step == ConfirmStep
  {
    if flow.step != ConfirmStep {
      EditTurnBeforeConfirm(flow, forced, menu, h);
    }
  }

  /** At the target step the flow stays exactly as it was, forced reply
      included, precisely when the answer normalizes to nothing. */
  lemma TargetStepStays(flow: Flow, forced: Option<string>, menu: Json, h: Heard)
    requires ValidFlow(flow) && flow.EditFlow? && flow.step == TargetStep && !IsCancel(h)
    ensures h.normalized == [] <==> Respond(flow, forced, menu, h) == Next(flow, forced, None)
  {
    if h.normalized != [] {
      TargetStepEffect(flow, forced, menu, h);
    }
  }

  /** At the field-choice step the flow stays exactly as it was precisely
      when no field is recognised in the answer; a recognised field becomes
      the pending field and the flow moves to the value step. */
  lemma FieldChoiceStays(flow: Flow, forced: Option<string>, menu: Json, h: Heard)
    requires ValidFlow(flow) && flow.EditFlow? && flow.step == FieldChoiceStep && !IsCancel(h)
    ensures h.choice.None? <==> Respond(flow, forced, menu, h) == Next(flow, forced, None)
    ensures var t := Respond(flow, forced, menu, h);
      h.choice.Some? ==> t.Next? && t.flow == flow.(pendingField := h.choice, step := FieldValueStep)
  {
  }

  /** The target step: a name the matcher cannot read raises; otherwise the
      flow moves to the field choice with the spoken language recorded, and
      the target is the matched item's name (in that language when it has
      one) or, with no match, the cleaned answer. */
  lemma TargetStepEffect(flow: Flow, forced: Option<string>, menu: Json, h: Heard)
    requires ValidFlow(flow) && flow.EditFlow? && flow.step == TargetStep
    requires h.normalized != [] && !IsCancel(h)
    ensures MatchMenu(menu, h.cleaned, SpokenLang(h.cleaned)).Raised?
      <==> Respond(flow, forced, menu, h).Raises?
    ensures var t := Respond(flow, forced, menu, h);
      t.Next? ==>
        && t.flow.step == FieldChoiceStep
        && t.flow.matchLang == Some(SpokenLang(h.cleaned))
        && t.flow.matchedItem == MatchMenu(menu, h.cleaned, SpokenLang(h.cleaned)).item
        && t.flow.pendingField == flow.pendingField
        && t.flow.fields == flow.fields
        && t.command.None?
    ensures var t := Respond(flow, forced, menu, h);
      t.Next? && t.flow.matchedItem.None? ==> t.flow.targetName == Some(h.cleaned)
    ensures var t := Respond(flow, forced, menu, h);
      t.Next? && t.flow.matchedItem.Some? ==>
        && t.flow.targetName.value != []
        && (var key := KeyOf(t.flow.matchLang.value);
            RawName(t.flow.matchedItem.value, key) != [] ==> t.flow.targetName == Some(RawName(t.flow.matchedItem.value, key)))
    ensures var t := Respond(flow, forced, menu, h);
      t.Next? && t.flow.matchedItem.Some? ==>
        && Matchable(t.flow.matchedItem.value)
        && t.flow.targetName.value in {RawName(t.flow.matchedItem.value, "name_ar"), RawName(t.flow.matchedItem.value, "name_en")}
  {
    var cleaned := h.cleaned;
    var lang := if HasArabic(cleaned) then Ar else En;
    var found := MatchMenu(menu, cleaned, lang);
    if found.Found? && found.item.Some? {
      MatchMenuFound(menu, cleaned, lang);
      MatchableHasName(found.item.value);
      MatchedNameIsAName(found.item.value, lang, cleaned);
    }
  }

  /** The language model answers exactly when no reply is forced and no
      flow is active. */
  lemma RenderDelegatesIff(forced: Option<string>, flow: Flow)
    ensures Render(forced, flow) == Delegate <==> (forced.None? || forced.value == []) && flow == NoFlow
  {
  }

  /** While the add flow collects, the agent asks for the first missing
      field, and different fields get different questions. */
  lemma RenderAsksNextMissing(flow: Flow)
    requires ValidFlow(flow) && flow.AddFlow? && !flow.awaitingConfirm
    ensures NextMissing(flow.fields).Some?
    ensures Render(None, flow) == Say([Words(AddQuestion(NextMissing(flow.fields).value))])
    ensures forall g :: AddQuestion(g) == AddQuestion(NextMissing(flow.fields).value) ==> g == NextMissing(flow.fields).value
  {
    AddQuestionInjective();
  }

  /** A forced reply is spoken once: the next reply after it is consumed comes
      from the flow. */
  lemma ForcedReplySpokenOnce(forced: Option<string>, flow: Flow)
    ensures forced.Some? && forced.value != [] ==> Render(forced, flow) == Say([Words(forced.value)])
    ensures Render(AfterRender(forced), flow) == Render(None, flow)
  {
  }
}
