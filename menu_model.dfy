/** The menu-item records both core files pass around: the five editable
    fields, the field names in their fixed order, and the command payloads the
    voice assistant publishes on the menu-edit channel. */
module MenuModel {
  import opened Wrappers

  /** One editable field of a menu item. */
  datatype Field = NameAr | NameEn | DescriptionAr | DescriptionEn | Price

  /** The key the field has in every JSON record. */
  function Key(f: Field): string
  {
    match f
    case NameAr => "name_ar"
    case NameEn => "name_en"
    case DescriptionAr => "description_ar"
    case DescriptionEn => "description_en"
    case Price => "price"
  }

  /** Position of the field in the order the add flow asks for it. */
  function Rank(f: Field): (n: nat)
    ensures n < 5
  {
    match f
    case NameAr => 0
    case NameEn => 1
    case DescriptionAr => 2
    case DescriptionEn => 3
    case Price => 4
  }

  /** `["name_ar", "name_en", "description_ar", "description_en", "price"]`. */
  const FieldOrder: seq<Field> := [NameAr, NameEn, DescriptionAr, DescriptionEn, Price]

  lemma FieldOrderRanks()
    ensures |FieldOrder| == 5
    ensures forall k :: 0 <= k < 5 ==> Rank(FieldOrder[k]) == k
    ensures forall f: Field :: FieldOrder[Rank(f)] == f
  {
  }

  /** A record with the five fields. `None` is JSON `null` where the record
      always carries all five keys (the add flow, the cleaned rows) and an
      absent key where it carries only some (the edit flow's changes, the
      `fields` of an update command). */
  datatype MenuFields = MenuFields(
    nameAr: Option<string>,
    nameEn: Option<string>,
    descriptionAr: Option<string>,
    descriptionEn: Option<string>,
    price: Option<real>)

  const NoFields: MenuFields := MenuFields(None, None, None, None, None)

  /** The value of a text field. */
  function TextOf(m: MenuFields, f: Field): Option<string>
    requires f != Price
  {
    match f
    case NameAr => m.nameAr
    case NameEn => m.nameEn
    case DescriptionAr => m.descriptionAr
    case DescriptionEn => m.descriptionEn
  }

  /** `fields[key] = value` for a text field. */
  function WithText(m: MenuFields, f: Field, s: string): (r: MenuFields)
    requires f != Price
    ensures TextOf(r, f) == Some(s) && r.price == m.price
    ensures forall g :: g != Price && g != f ==> TextOf(r, g) == TextOf(m, g)
  {
    match f
    case NameAr => m.(nameAr := Some(s))
    case NameEn => m.(nameEn := Some(s))
    case DescriptionAr => m.(descriptionAr := Some(s))
    case DescriptionEn => m.(descriptionEn := Some(s))
  }

  /** `value in (None, "")` for the value stored under the field's key. */
  predicate IsMissing(m: MenuFields, f: Field)
  {
    if f == Price then m.price.None? else TextOf(m, f) == None || TextOf(m, f) == Some("")
  }

  /** Python's `value or None` for an optional string. */
  function OrNone(s: Option<string>): (r: Option<string>)
    ensures r.None? <==> (s.None? || s == Some(""))
    ensures r.Some? ==> r == s
  {
    if s == Some("") then None else s
  }

  /** The item an update or a delete addresses: `None` is an absent key. */
  datatype MatchKey = MatchKey(nameAr: Option<string>, nameEn: Option<string>)

  /** A command published on the menu-edit channel; the `action` key is the
      constructor. */
  datatype Payload =
    | AddCommand(fields: MenuFields)
    | UpdateCommand(target: MatchKey, fields: MenuFields)
    | DeleteCommand(target: MatchKey)

  /** The language a spoken name is in. */
  datatype Lang = Ar | En
}
