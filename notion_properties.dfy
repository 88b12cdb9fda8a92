/** Typed Notion page properties and `extract_property_value`, which turns
    one of them into a plain value (or `None`). */
module NotionProperties {
  import opened Wrappers
  import opened Text

  /** A plain value as Python holds it after extraction: text, a checkbox
      flag or a number. */
  datatype Value = Str(s: string) | Bool(b: bool) | Num(n: int)

  /** Python truthiness of an optional value (`if x:` / `x or default`). */
  predicate Truthy(v: Option<Value>) {
    match v
    case None => false
    case Some(Str(s)) => s != []
    case Some(Bool(b)) => b
    case Some(Num(n)) => n != 0
  }

  /** Python's `str(value)`. */
  function ValueText(v: Value): string {
    match v
    case Str(s) => s
    case Bool(b) => if b then "True" else "False"
    case Num(n) => IntToString(n)
  }

  /** One Notion property, by its `type` tag. The rich-text and title pieces
      are the pieces' `plain_text` (`''` where a piece has none); a missing,
      null or empty list is `[]`. Option names and people names are `''`
      where the entry has no `name`. `OtherProp` is every other tag, and a
      property dictionary without a `type` (what `props.get(name, {})` gives
      for a missing property). */
  datatype Property =
    | TitleProp(pieces: seq<string>)
    | RichTextProp(pieces: seq<string>)
    | SelectProp(name: Option<string>)
    | MultiSelectProp(names: seq<string>)
    | CheckboxProp(checked: Option<bool>)
    | NumberProp(number: Option<int>)
    | DateProp(start: Option<string>)
    | PeopleProp(names: seq<string>)
    | EmailProp(email: Option<string>)
    | PhoneNumberProp(phone: Option<string>)
    | UrlProp(url: Option<string>)
    | OtherProp

  function MapStr(o: Option<string>): Option<Value> {
    match o
    case None => None
    case Some(s) => Some(Str(s))
  }

  /** `extract_property_value`. */
  function ExtractPropertyValue(p: Property): (r: Option<Value>)
    ensures p.OtherProp? ==> r == None
    ensures r.Some? && r.value.Bool? <==> p.CheckboxProp?
    ensures p.CheckboxProp? ==> r == Some(Bool(p.checked == Some(true)))
    ensures r.Some? && r.value.Num? <==> p.NumberProp? && p.number.Some?
    ensures (p.TitleProp? || p.RichTextProp?) ==> (r.None? <==> p.pieces == [])
    ensures (p.MultiSelectProp? || p.PeopleProp?) ==> (r.None? <==> p.names == [])
    ensures (p.MultiSelectProp? || p.PeopleProp?) && |p.names| == 1 ==> r == Some(Str(p.names[0]))
    // the value of each type: pieces concatenated, names joined with ", ", a field as it is
    ensures (p.TitleProp? || p.RichTextProp?) && p.pieces != [] ==> r == Some(Str(Concat(p.pieces)))
    ensures (p.MultiSelectProp? || p.PeopleProp?) && p.names != [] ==> r == Some(Str(Join(p.names, ", ")))
    ensures p.SelectProp? ==> (r.Some? <==> p.name.Some?) && (p.name.Some? ==> r == Some(Str(p.name.value)))
    ensures p.DateProp? ==> (r.Some? <==> p.start.Some?) && (p.start.Some? ==> r == Some(Str(p.start.value)))
    ensures p.EmailProp? ==> (r.Some? <==> p.email.Some?) && (p.email.Some? ==> r == Some(Str(p.email.value)))
    ensures p.PhoneNumberProp? ==> (r.Some? <==> p.phone.Some?) && (p.phone.Some? ==> r == Some(Str(p.phone.value)))
    ensures p.UrlProp? ==> (r.Some? <==> p.url.Some?) && (p.url.Some? ==> r == Some(Str(p.url.value)))
    ensures p.NumberProp? && p.number.Some? ==> r == Some(Num(p.number.value))
  {
    match p
    case TitleProp(pieces) => if pieces == [] then None else Some(Str(Concat(pieces)))
    case RichTextProp(pieces) => if pieces == [] then None else Some(Str(Concat(pieces)))
    case SelectProp(name) => MapStr(name)
    case MultiSelectProp(names) => if names == [] then None else Some(Str(Join(names, ", ")))
    case CheckboxProp(checked) => Some(Bool(checked.GetOr(false)))
    case NumberProp(number) =>
      (match number case None => None case Some(n) => Some(Num(n)))
    case DateProp(start) => MapStr(start)
    case PeopleProp(names) => if names == [] then None else Some(Str(Join(names, ", ")))
    case EmailProp(email) => MapStr(email)
    case PhoneNumberProp(phone) => MapStr(phone)
    case UrlProp(url) => MapStr(url)
    case OtherProp => None
  }

  /** One more selected option (or person) adds `", "` and its name to the
      text: the names appear in order, separated by a comma and a space. */
  lemma NamesAppend(names: seq<string>, x: string)
    requires names != []
    ensures ExtractPropertyValue(MultiSelectProp(names + [x]))
            == Some(Str(ExtractPropertyValue(MultiSelectProp(names)).value.s + ", " + x))
    ensures ExtractPropertyValue(PeopleProp(names + [x]))
            == Some(Str(ExtractPropertyValue(PeopleProp(names)).value.s + ", " + x))
  {
    JoinAppend(names, x, ", ");
  }

  /** A page's properties in the order Notion lists them. */
  type Properties = seq<(string, Property)>

  /** `props.get(name, {})`: the first property of that name, or a property
      with no type when there is none. */
  function Lookup(props: Properties, name: string): Property {
    if props == [] then OtherProp
    else if props[0].0 == name then props[0].1
    else Lookup(props[1..], name)
  }

  /** A missing name reads as a property without a type; anything else found
      is the first property listed under that name. */
  lemma {:induction false} LookupFacts(props: Properties, name: string)
    ensures (forall i :: 0 <= i < |props| ==> props[i].0 != name) ==> Lookup(props, name) == OtherProp
    ensures forall i :: 0 <= i < |props| && props[i].0 == name && (forall j :: 0 <= j < i ==> props[j].0 != name)
                        ==> Lookup(props, name) == props[i].1
  {
    if props != [] {
      LookupFacts(props[1..], name);
      forall i | 0 <= i < |props| && props[i].0 == name && (forall j :: 0 <= j < i ==> props[j].0 != name)
        ensures Lookup(props, name) == props[i].1
      {
        if i > 0 {
          assert props[1..][i - 1] == props[i];
          forall j | 0 <= j < i - 1 ensures props[1..][j].0 != name { assert props[1..][j] == props[j + 1]; }
        }
      }
      if forall i :: 0 <= i < |props| ==> props[i].0 != name {
        assert forall i :: 0 <= i < |props[1..]| ==> props[1..][i].0 != name by {
          forall i | 0 <= i < |props[1..]| ensures props[1..][i].0 != name { assert props[1..][i] == props[i + 1]; }
        }
      }
    }
  }

  const Reserved: set<string> := {"TITLE", "PUBLISH", "DOC_ID"}

  /** The extra properties a processed record carries: every property except
      TITLE, PUBLISH and DOC_ID whose extracted value is not `None`, in order. */
  function RecordProperties(props: Properties): seq<(string, Value)> {
    if props == [] then []
    else
      var (k, p) := props[0];
      var rest := RecordProperties(props[1..]);
      if k !in Reserved && ExtractPropertyValue(p).Some? then [(k, ExtractPropertyValue(p).value)] + rest
      else rest
  }

  /** The record keeps exactly the non-reserved properties with a value. */
  lemma {:induction false} RecordPropertiesFacts(props: Properties)
    ensures |RecordProperties(props)| <= |props|
    ensures forall e :: e in RecordProperties(props) ==> e.0 !in Reserved
    ensures forall k, v :: (k, v) in RecordProperties(props) <==>
              exists p :: (k, p) in props && k !in Reserved && ExtractPropertyValue(p) == Some(v)
  {
    if props != [] {
      RecordPropertiesFacts(props[1..]);
      assert forall k', p' :: (k', p') in props <==> (k', p') == props[0] || (k', p') in props[1..];
    }
  }
}
