/** The commands `MyAgent` publishes on the menu-edit channel: the payloads
    its three tools build (`add_menu_item`, `update_menu_item`,
    `delete_menu_item`, src/voice_assistant.py:435-512) and the ones its
    guided flows build on a confirmed "yes" (src/voice_assistant.py:219-231
    and 298-303). */
module MenuCommands {
  import opened Wrappers
  import opened MenuModel

  /** A string argument as an optional field: `value or None`, and equally
      `if value: fields[key] = value`. */
  function Given(s: string): (r: Option<string>)
    ensures r.Some? <==> s != []
    ensures r.Some? ==> r.value == s
  {
    if s == [] then None else Some(s)
  }

  /** The item a tool addresses: by its Arabic name for `"ar"`, by its
      English name for `"en"`, and by both for anything else (`"auto"`). */
  function MatchFor(matchLang: string, matchName: string): (k: MatchKey)
    ensures k.nameAr.Some? <==> matchLang != "en"
    ensures k.nameEn.Some? <==> matchLang != "ar"
    ensures k.nameAr.Some? ==> k.nameAr.value == matchName
    ensures k.nameEn.Some? ==> k.nameEn.value == matchName
  {
    if matchLang == "ar" then MatchKey(Some(matchName), None)
    else if matchLang == "en" then MatchKey(None, Some(matchName))
    else MatchKey(Some(matchName), Some(matchName))
  }

  /** `add_menu_item`: every key is sent, an empty string as `null`. */
  function AddPayload(nameAr: string, nameEn: string, descriptionAr: string, descriptionEn: string,
                      price: Option<real>): (p: Payload)
    ensures p.AddCommand? && p.fields.price == price
    ensures forall f :: f != Price ==> TextOf(p.fields, f) == Given(ArgOf(f, nameAr, nameEn, descriptionAr, descriptionEn))
  {
    AddCommand(MenuFields(Given(nameAr), Given(nameEn), Given(descriptionAr), Given(descriptionEn), price))
  }

  /** The tool argument that carries field `f`. */
  function ArgOf(f: Field, nameAr: string, nameEn: string, descriptionAr: string, descriptionEn: string): string
    requires f != Price
  {
    match f
    case NameAr => nameAr
    case NameEn => nameEn
    case DescriptionAr => descriptionAr
    case DescriptionEn => descriptionEn
  }

  /** `update_menu_item`: only the non-empty strings and a given price are
      changed. */
  function UpdatePayload(matchName: string, matchLang: string, nameAr: string, nameEn: string,
                         descriptionAr: string, descriptionEn: string, price: Option<real>): (p: Payload)
    ensures p.UpdateCommand? && p.target == MatchFor(matchLang, matchName) && p.fields.price == price
    ensures forall f :: f != Price ==>
      (TextOf(p.fields, f).Some? <==> ArgOf(f, nameAr, nameEn, descriptionAr, descriptionEn) != [])
    ensures forall f :: f != Price && TextOf(p.fields, f).Some? ==>
      TextOf(p.fields, f).value == ArgOf(f, nameAr, nameEn, descriptionAr, descriptionEn)
  {
    UpdateCommand(MatchFor(matchLang, matchName),
      MenuFields(Given(nameAr), Given(nameEn), Given(descriptionAr), Given(descriptionEn), price))
  }

  /** `delete_menu_item`. */
  function DeletePayload(matchName: string, matchLang: string): (p: Payload)
    ensures p.DeleteCommand? && p.target == MatchFor(matchLang, matchName)
  {
    DeleteCommand(MatchFor(matchLang, matchName))
  }

  /** The add flow's command: the collected fields, an empty string sent as
      `null`, the price as collected. */
  function FlowAddCommand(fields: MenuFields): Payload
  {
    AddCommand(MenuFields(OrNone(fields.nameAr), OrNone(fields.nameEn),
      OrNone(fields.descriptionAr), OrNone(fields.descriptionEn), fields.price))
  }

  /** The code `match_lang` is stored as. */
  function LangCode(lang: Lang): string
  {
    if lang == Ar then "ar" else "en"
  }

  /** The edit flow's command: the target is matched by the name key of the
      language it was spoken in, and the changes are sent as collected. */
  function FlowUpdateCommand(lang: Lang, name: string, fields: MenuFields): Payload
  {
    UpdateCommand(if lang == Ar then MatchKey(Some(name), None) else MatchKey(None, Some(name)), fields)
  }

  /** The add flow publishes what the `add_menu_item` tool would for the
      collected values, a missing one passed as `""`. */
  lemma FlowAddIsToolAdd(fields: MenuFields)
    ensures FlowAddCommand(fields) == AddPayload(fields.nameAr.GetOr(""), fields.nameEn.GetOr(""),
      fields.descriptionAr.GetOr(""), fields.descriptionEn.GetOr(""), fields.price)
  {
  }

  /** The edit flow publishes what the `update_menu_item` tool would with the
      flow's language code, provided no change is an empty string. */
  lemma FlowUpdateIsToolUpdate(lang: Lang, name: string, fields: MenuFields)
    requires forall f :: f != Price ==> TextOf(fields, f) != Some("")
    ensures FlowUpdateCommand(lang, name, fields) == UpdatePayload(name, LangCode(lang),
      fields.nameAr.GetOr(""), fields.nameEn.GetOr(""), fields.descriptionAr.GetOr(""),
      fields.descriptionEn.GetOr(""), fields.price)
  {
    assert TextOf(fields, NameAr) != Some("");
    assert TextOf(fields, NameEn) != Some("");
    assert TextOf(fields, DescriptionAr) != Some("");
    assert TextOf(fields, DescriptionEn) != Some("");
  }
}
