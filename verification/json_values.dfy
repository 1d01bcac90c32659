/**
 The parsed contents of the materials document: records are maps from field
 name to a JSON value, and the document is a map from top-level key to either
 the list of records or some other JSON value.
 */
module JsonValues {

  datatype Option<+T> = None | Some(value: T)

  /** A JSON field value. Strings are told apart (the required-field check
      compares against the empty string, and path ids are strings). Numbers,
      booleans and null are atoms: `token` identifies the value for strict
      equality. Objects and arrays are compound: every parse of the file or of
      a request body creates them anew, so `===` never holds between two of
      them. `text` is how a template literal renders a non-string value. */
  datatype Value = Str(s: string) | Atom(token: nat, text: string) | Compound(text: string)

  /** A material record: its own keys and their values. */
  type Material = map<string, Value>

  /** A top-level entry of the document: the material list, or any other value. */
  datatype Entry = Records(items: seq<Material>) | Scalar(value: Value)

  /** The whole parsed document, `{ materials: [...], ...other keys }`. */
  type Document = map<string, Entry>

  const MaterialsKey: string := "materials"
  const IdKey: string := "materialId"

  /** `material.materialId`: the value under the identity key, or `undefined`. */
  function IdOf(m: Material): (r: Option<Value>)
    ensures r.None? <==> IdKey !in m
    ensures r.Some? ==> r.value == m[IdKey]
  {
    if IdKey in m then Some(m[IdKey]) else None
  }

  /** `a === b` on two ids that may be `undefined`. */
  predicate StrictEquals(a: Option<Value>, b: Option<Value>): (r: bool)
    ensures r ==> a == b
    ensures a.None? && b.None? ==> r
    ensures a.Some? && b.Some? && a.value.Str? && b.value.Str? ==> (r <==> a.value.s == b.value.s)
    ensures a.Some? && a.value.Atom? && a == b ==> r
    ensures a.Some? && a.value.Compound? ==> !r
  {
    a == b && (a.None? || !a.value.Compound?)
  }

  /** How a template literal renders an id that may be `undefined`. */
  function Show(id: Option<Value>): (r: string)
    ensures id.None? ==> r == "undefined"
    ensures id.Some? && id.value.Str? ==> r == id.value.s
    ensures id.Some? && !id.value.Str? ==> r == id.value.text
  {
    match id
    case None => "undefined"
    case Some(Str(s)) => s
    case Some(Atom(_, text)) => text
    case Some(Compound(text)) => text
  }
}
