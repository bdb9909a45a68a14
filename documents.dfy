/**
 * The values the configuration file passes around: registration form fields
 * as the caller hands them in, and schemaless documents of the store.
 */
module Documents {

  /** A form field of the registration data: absent, `null`, or a string. */
  datatype Field = Undefined | Null | Text(text: string)

  /** JavaScript truthiness of a field: only a non-empty string is truthy. */
  predicate Truthy(f: Field) {
    f.Text? && f.text != ""
  }

  /**
   * `f || ''`: the field's string when it is truthy, otherwise the empty
   * string, so an empty string is treated exactly like an absent value.
   */
  function OrEmpty(f: Field): (r: string)
    ensures r == "" <==> !Truthy(f)
    ensures r != "" ==> f == Text(r)
  {
    if Truthy(f) then f.text else ""
  }

  /** `${f}` inside a template literal. */
  function Render(f: Field): (r: string)
    ensures f.Text? ==> r == f.text
    ensures Truthy(f) ==> r == OrEmpty(f)
    ensures r == "" ==> f == Text("")
    ensures f.Undefined? ==> r == "undefined"
    ensures f.Null? ==> r == "null"
  {
    match f
    case Undefined => "undefined"
    case Null => "null"
    case Text(s) => s
  }

  /**
   * A value held by a document. `Time(ms)` stands for the ISO-8601 string of
   * the instant `ms` milliseconds after the epoch.
   */
  datatype Value = NullValue | Bool(b: bool) | Num(n: int) | Str(s: string) | Time(ms: int)

  /** A document (or an object literal): field name to value; an absent key is `undefined`. */
  type Document = map<string, Value>

  /**
   * An object literal `{...base, ...over}`: it has the keys of both, and where
   * both have a key the later one, `over`, wins.
   */
  function Spread(base: Document, over: Document): (r: Document)
    ensures r.Keys == base.Keys + over.Keys
    ensures forall k :: k in over ==> r[k] == over[k]
    ensures forall k :: k in base && k !in over ==> r[k] == base[k]
  {
    base + over
  }

  /**
   * The entry that a field contributes to a stored document: JSON drops an
   * `undefined` property, keeps `null`, and stores a string as a string.
   */
  function FieldEntry(key: string, f: Field): (d: Document)
    ensures key in d <==> !f.Undefined?
    ensures d.Keys <= {key}
    ensures f.Null? ==> d[key] == NullValue
    ensures f.Text? ==> d[key] == Str(f.text)
  {
    match f
    case Undefined => map[]
    case Null => map[key := NullValue]
    case Text(s) => map[key := Str(s)]
  }
}
