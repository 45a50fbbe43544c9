/** The voice agent `MyAgent` (src/voice_assistant.py:28-512) as a class:
    the menu snapshot, the dialogue flow, the forced reply and the menu-edit
    channel are its fields, and its handlers change them in place. Each
    handler is proved against the state machine of `DialogueFlow`. */
module VoiceAssistant {
  import opened Wrappers
  import opened JsonValues
  import opened MenuModel
  import opened Utterance
  import opened MenuMatch
  import opened MenuCommands
  import opened DialogueFlow

  /** What `_send_menu_edit` returns. */
  const ChannelUnavailable := "Menu edit channel is not available yet."
  const Done := "Done."

  /** The commands a send publishes: the command, when there is one and a
      local participant is attached. */
  function Delivered(command: Option<Payload>, attached: bool): (out: seq<Payload>)
    ensures |out| <= 1
    ensures out != [] <==> command.Some? && attached
    ensures out != [] ==> out[0] == command.value
  {
    if command.Some? && attached then [command.value] else []
  }

  class MyAgent {
    /** `_menu_context`; `JNull` is `None`. */
    var menuContext: Json
    /** `_flow`. */
    var flow: Flow
    /** `_forced_reply`. */
    var forcedReply: Option<string>
    /** `_local_participant is not None`. */
    var participantAttached: bool
    /** The payloads published on the "menu-edit" topic, oldest first. */
    var published: seq<Payload>

    ghost predicate Valid()
      reads this
    {
      ValidFlow(flow)
    }

    constructor ()
      ensures Valid()
      ensures menuContext == JNull && flow == NoFlow && forcedReply == None
      ensures !participantAttached && published == []
    {
      menuContext := JNull;
      flow := NoFlow;
      forcedReply := None;
      participantAttached := false;
      published := [];
    }

    /** `set_menu_context`: the snapshot is replaced (the prompt rebuild is
        not modelled). */
    method SetMenuContext(payload: Json)
      requires Valid()
      modifies this
      ensures Valid() && menuContext == payload
      ensures flow == old(flow) && forcedReply == old(forcedReply)
      ensures participantAttached == old(participantAttached) && published == old(published)
    {
      menuContext := payload;
    }

    /** `attach_local_participant`. */
    method AttachLocalParticipant()
      requires Valid()
      modifies this
      ensures Valid() && participantAttached
      ensures menuContext == old(menuContext) && flow == old(flow)
      ensures forcedReply == old(forcedReply) && published == old(published)
    {
      participantAttached := true;
    }

    /** `_send_menu_edit`: publishes the payload when a participant is
        attached, and says whether it did. */
    method SendMenuEdit(payload: Payload) returns (status: string)
      requires Valid()
      modifies this
      ensures Valid()
      ensures status == (if participantAttached then Done else ChannelUnavailable)
      ensures published == old(published) + Delivered(Some(payload), participantAttached)
      ensures menuContext == old(menuContext) && flow == old(flow)
      ensures forcedReply == old(forcedReply) && participantAttached == old(participantAttached)
    {
      if !participantAttached {
        return ChannelUnavailable;
      }
      published := published + [payload];
      return Done;
    }

    /** `_find_menu_item_match`: the scan over the snapshot's items and their
        candidate names, returning at the first exact match and otherwise the
        first item of highest positive score. */
    method FindMenuItemMatch(query: string, prefer: Lang) returns (r: MatchOutcome)
      ensures r == MatchMenu(menuContext, query, prefer)
    {
      if !Truthy(menuContext) {
        return Found(None);
      }
      if !menuContext.JObj? {
        return Raised;
      }
      var itemsValue := ItemsOf(menuContext);
      if !itemsValue.JArr? {
        return Found(None);
      }
      var q := Normalize(query);
      if q == [] {
        return Found(None);
      }
      var items := itemsValue.elems;
      ghost var start := Best(None, 0);
      var best: Option<Json> := None;
      var bestScore: nat := 0;
      var i := 0;
      while i < |items|
        invariant 0 <= i <= |items|
        invariant ScanItems(items, q, prefer, start) == ScanItems(items[i..], q, prefer, Best(best, bestScore))
      {
        var item := items[i];
        assert items[i..][1..] == items[i + 1..];
        if item.JObj? {
          var ar := NameArg(item, "name_ar");
          var en := NameArg(item, "name_en");
          if ar.None? || en.None? {
            return Raised;
          }
          var cs := CandidateList(Normalize(ar.value), Normalize(en.value));
          assert cs == Candidates(item);
          var exact;
          exact, best, bestScore := ScanCandidateNames(item, cs, q, prefer, best, bestScore);
          if exact {
            return Found(Some(item));
          }
        }
        i := i + 1;
      }
      return Found(if bestScore > 0 then best else None);
    }

    /** The inner loop of `_find_menu_item_match` over one item's candidate
        names: an exact match ends the whole scan; otherwise a candidate
        scoring above the best so far makes the item the new best. */
    method ScanCandidateNames(item: Json, cs: seq<(Lang, string)>, q: string, prefer: Lang,
                              best: Option<Json>, bestScore: nat)
      returns (exact: bool, best': Option<Json>, bestScore': nat)
      ensures exact ==> ScanCandidates(item, cs, q, prefer, Best(best, bestScore)) == Exact(item)
      ensures !exact ==> ScanCandidates(item, cs, q, prefer, Best(best, bestScore)) == Best(best', bestScore')
    {
      best', bestScore' := best, bestScore;
      var j := 0;
      while j < |cs|
        invariant 0 <= j <= |cs|
        invariant ScanCandidates(item, cs, q, prefer, Best(best, bestScore))
               == ScanCandidates(item, cs[j..], q, prefer, Best(best', bestScore'))
      {
        assert cs[j..][1..] == cs[j + 1..];
        var (lang, name) := cs[j];
        if name == q {
          return true, best', bestScore';
        }
        var score := Score(q, name, lang, prefer);
        if score > bestScore' {
          best', bestScore' := Some(item), score;
        }
        j := j + 1;
      }
      return false, best', bestScore';
    }

    /** `_next_missing_add_field`: the first field, in the fixed order, whose
        value is `None` or `""`. */
    method NextMissingAddField(fields: MenuFields) returns (r: Option<Field>)
      ensures r == NextMissing(fields)
    {
      FieldOrderRanks();
      var k := 0;
      while k < |FieldOrder|
        invariant 0 <= k <= |FieldOrder|
        invariant FirstMissing(fields, FieldOrder) == FirstMissing(fields, FieldOrder[k..])
      {
        assert FieldOrder[k..][1..] == FieldOrder[k + 1..];
        var f := FieldOrder[k];
        if IsMissing(fields, f) {
          return Some(f);
        }
        k := k + 1;
      }
      return None;
    }

    /** `on_user_turn_completed`: one user turn. A raise leaves the agent as
        it was; otherwise the flow and the forced reply become what `Turn`
        says, and its command, if any, is sent. */
    method OnUserTurnCompleted(text: string) returns (raised: bool)
      requires Valid()
      modifies this
      ensures Valid()
      ensures menuContext == old(menuContext) && participantAttached == old(participantAttached)
      ensures raised <==> Turn(old(flow), old(forcedReply), menuContext, text).Raises?
      ensures raised ==> flow == old(flow) && forcedReply == old(forcedReply) && published == old(published)
      ensures !raised ==>
        && flow == Turn(old(flow), old(forcedReply), menuContext, text).flow
        && forcedReply == Turn(old(flow), old(forcedReply), menuContext, text).forced
        && published == old(published) + Delivered(Turn(old(flow), old(forcedReply), menuContext, text).command, participantAttached)
    {
      var h := Hear(text);
      HearCoherent(text);
      raised := RespondTo(h);
    }

    /** `on_user_turn_completed` once the utterance has been read. */
    method RespondTo(h: Heard) returns (raised: bool)
      requires Valid() && Coherent(h)
      modifies this
      ensures Valid()
      ensures menuContext == old(menuContext) && participantAttached == old(participantAttached)
      ensures raised <==> Respond(old(flow), old(forcedReply), menuContext, h).Raises?
      ensures raised ==> flow == old(flow) && forcedReply == old(forcedReply) && published == old(published)
      ensures !raised ==>
        && flow == Respond(old(flow), old(forcedReply), menuContext, h).flow
        && forcedReply == Respond(old(flow), old(forcedReply), menuContext, h).forced
        && published == old(published) + Delivered(Respond(old(flow), old(forcedReply), menuContext, h).command, participantAttached)
    {
      ghost var flow0, forced0 := flow, forcedReply;
      raised := false;
      if IsCancel(h) {
        flow := NoFlow;
        forcedReply := Some(Cancelled);
      } else if flow.AddFlow? {
        ContinueAdd(h);
      } else if flow.EditFlow? {
        raised := ContinueEdit(h);
      } else {
        if h.addIntent {
          flow := FreshAdd;
        } else if h.editIntent {
          flow := FreshEdit;
        }
      }
      if !raised {
        TurnKeepsValid(flow0, forced0, menuContext, h);
      }
    }

    /** The add-flow part of `on_user_turn_completed`. */
    method ContinueAdd(h: Heard)
      requires Valid() && flow.AddFlow? && !IsCancel(h)
      modifies this
      ensures menuContext == old(menuContext) && participantAttached == old(participantAttached)
      ensures var t := Respond(old(flow), old(forcedReply), menuContext, h);
        t.Next? && flow == t.flow && forcedReply == t.forced && published == old(published) + Delivered(t.command, participantAttached)
    {
      var fields, pending, awaiting := flow.fields, flow.pending, flow.awaitingConfirm;
      if awaiting {
        if h.yes {
          var _ := SendMenuEdit(FlowAddCommand(fields));
          flow := NoFlow;
          forcedReply := Some(ItemAdded);
        } else if h.no {
          flow := NoFlow;
          forcedReply := Some(AddDeclined);
        } else {
          forcedReply := Some(ConfirmYesNo);
        }
        return;
      }
      var collected := fields;
      if pending.Some? {
        collected := StoreAddAnswer(fields, pending.value, h);
      }
      var next := NextMissingAddField(collected);
      if next.Some? {
        flow := AddFlow(collected, next, false);
      } else {
        flow := AddFlow(collected, None, true);
      }
    }

    /** The edit-flow part of `on_user_turn_completed`. */
    method ContinueEdit(h: Heard) returns (raised: bool)
      requires Valid() && flow.EditFlow? && !IsCancel(h)
      modifies this
      ensures menuContext == old(menuContext) && participantAttached == old(participantAttached)
      ensures raised <==> Respond(old(flow), old(forcedReply), menuContext, h).Raises?
      ensures raised ==> flow == old(flow) && forcedReply == old(forcedReply) && published == old(published)
      ensures !raised ==> var t := Respond(old(flow), old(forcedReply), menuContext, h);
        flow == t.flow && forcedReply == t.forced && published == old(published) + Delivered(t.command, participantAttached)
    {
      raised := false;
      match flow.step {
        case TargetStep =>
          if h.normalized != [] {
            var lang := SpokenLang(h.cleaned);
            var found := FindMenuItemMatch(h.cleaned, lang);
            if found.Raised? {
              return true;
            }
            var name := h.cleaned;
            if found.item.Some? && Truthy(found.item.value) && found.item.value.JObj? {
              name := MatchedName(found.item.value, lang, h.cleaned);
              flow := flow.(matchedItem := found.item);
            }
            flow := flow.(targetName := Some(name), matchLang := Some(lang), step := FieldChoiceStep);
          }
        case FieldChoiceStep =>
          if h.choice.Some? {
            flow := flow.(pendingField := h.choice, step := FieldValueStep);
          }
        case FieldValueStep =>
          var changes := flow.fields;
          if flow.pendingField.Some? {
            changes := StoreEditAnswer(flow.fields, flow.pendingField.value, h);
          }
          flow := flow.(fields := changes, step := ConfirmStep);
        case ConfirmStep =>
          if h.yes {
            var _ := SendMenuEdit(FlowUpdateCommand(flow.matchLang.value, flow.targetName.value, flow.fields));
            flow := NoFlow;
            forcedReply := Some(ItemUpdated);
          } else if h.no {
            flow := NoFlow;
            forcedReply := Some(UpdateDeclined);
          } else {
            forcedReply := Some(ConfirmYesNo);
          }
      }
    }

    /** `llm_node`: a non-empty forced reply is spoken and cleared; otherwise
        the flow's question or summary, or the language model's answer. */
    method LlmNode() returns (reply: Reply)
      requires Valid()
      modifies this
      ensures Valid()
      ensures reply == Render(old(forcedReply), flow)
      ensures forcedReply == AfterRender(old(forcedReply))
      ensures menuContext == old(menuContext) && flow == old(flow)
      ensures participantAttached == old(participantAttached) && published == old(published)
    {
      if forcedReply.Some? && forcedReply.value != [] {
        reply := Say([Words(forcedReply.value)]);
        forcedReply := None;
        return;
      }
      reply := Render(None, flow);
    }

    /** The `add_menu_item` tool. */
    method AddMenuItem(nameAr: string, nameEn: string, descriptionAr: string, descriptionEn: string,
                       price: Option<real>) returns (status: string)
      requires Valid()
      modifies this
      ensures Valid()
      ensures status == (if participantAttached then Done else ChannelUnavailable)
      ensures published == old(published)
        + Delivered(Some(AddPayload(nameAr, nameEn, descriptionAr, descriptionEn, price)), participantAttached)
      ensures menuContext == old(menuContext) && flow == old(flow)
      ensures forcedReply == old(forcedReply) && participantAttached == old(participantAttached)
    {
      status := SendMenuEdit(AddPayload(nameAr, nameEn, descriptionAr, descriptionEn, price));
    }

    /** The `update_menu_item` tool. */
    method UpdateMenuItem(matchName: string, matchLang: string, nameAr: string, nameEn: string,
                          descriptionAr: string, descriptionEn: string, price: Option<real>) returns (status: string)
      requires Valid()
      modifies this
      ensures Valid()
      ensures status == (if participantAttached then Done else ChannelUnavailable)
      ensures published == old(published) + Delivered(Some(UpdatePayload(matchName, matchLang,
        nameAr, nameEn, descriptionAr, descriptionEn, price)), participantAttached)
      ensures menuContext == old(menuContext) && flow == old(flow)
      ensures forcedReply == old(forcedReply) && participantAttached == old(participantAttached)
    {
      status := SendMenuEdit(UpdatePayload(matchName, matchLang, nameAr, nameEn, descriptionAr, descriptionEn, price));
    }

    /** The `delete_menu_item` tool. */
    method DeleteMenuItem(matchName: string, matchLang: string) returns (status: string)
      requires Valid()
      modifies this
      ensures Valid()
      ensures status == (if participantAttached then Done else ChannelUnavailable)
      ensures published == old(published) + Delivered(Some(DeletePayload(matchName, matchLang)), participantAttached)
      ensures menuContext == old(menuContext) && flow == old(flow)
      ensures forcedReply == old(forcedReply) && participantAttached == old(participantAttached)
    {
      status := SendMenuEdit(DeletePayload(matchName, matchLang));
    }
  }
}
