/**
 The pure part of the materials routes: first-match lookup by `materialId`,
 the shallow merge used by both update paths, removal of one record, the
 required-field check of the strict update, and the response messages.
 */
module Repository {
  import opened JsonValues

  /** The test both lookups use: `material.materialId === id`. */
  predicate Matches(m: Material, id: Option<Value>)
  {
    StrictEquals(IdOf(m), id)
  }

  /** `Array.prototype.findIndex` with `m => m.materialId === id`: the index of
      the first record whose id strictly equals `id` (`None` stands for -1). */
  function FindIndex(ms: seq<Material>, id: Option<Value>): (r: Option<nat>)
    ensures r.Some? ==> r.value < |ms| && Matches(ms[r.value], id)
    ensures r.Some? ==> forall j :: 0 <= j < r.value ==> !Matches(ms[j], id)
    ensures r.None? <==> forall j :: 0 <= j < |ms| ==> !Matches(ms[j], id)
  {
    if |ms| == 0 then None
    else if Matches(ms[0], id) then Some(0)
    else
      match FindIndex(ms[1..], id)
      case None => None
      case Some(k) => Some(k + 1)
  }

  /** `Array.prototype.find` with the same test: the first matching record. */
  function Find(ms: seq<Material>, id: Option<Value>): (r: Option<Material>)
    ensures r.None? <==> forall j :: 0 <= j < |ms| ==> !Matches(ms[j], id)
    ensures r.Some? ==> exists i :: 0 <= i < |ms| && ms[i] == r.value && Matches(ms[i], id)
                                    && forall j :: 0 <= j < i ==> !Matches(ms[j], id)
  {
    match FindIndex(ms, id)
    case None => None
    case Some(i) => Some(ms[i])
  }

  /** The shallow merge `{ ...base, ...patch }`: every key of either side is
      kept, and on a key both have the patch wins. */
  function ShallowMerge(base: Material, patch: Material): (r: Material)
    ensures r.Keys == base.Keys + patch.Keys
    ensures forall k :: k in patch ==> r[k] == patch[k]
    ensures forall k :: k in base && k !in patch ==> r[k] == base[k]
  {
    base + patch
  }

  /** The collection with the record at `i` replaced by its merge with `patch`. */
  function MergeAt(ms: seq<Material>, i: nat, patch: Material): (r: seq<Material>)
    requires i < |ms|
    ensures |r| == |ms|
    ensures r[i] == ShallowMerge(ms[i], patch)
    ensures forall j :: 0 <= j < |ms| && j != i ==> r[j] == ms[j]
  {
    ms[i := ShallowMerge(ms[i], patch)]
  }

  /** `splice(i, 1)`: the collection without the record at `i`, the others in
      their original order. */
  function RemoveAt(ms: seq<Material>, i: nat): (r: seq<Material>)
    requires i < |ms|
    ensures |r| == |ms| - 1
    ensures forall j :: 0 <= j < i ==> r[j] == ms[j]
    ensures forall j :: i <= j < |r| ==> r[j] == ms[j + 1]
    ensures multiset(r) + multiset{ms[i]} == multiset(ms)
  {
    assert ms == ms[..i] + [ms[i]] + ms[i + 1..];
    ms[..i] + ms[i + 1..]
  }

  /** The result of the create-or-update: the new collection, and whether the
      body was appended as a new record. */
  datatype UpsertResult = Upserted(items: seq<Material>, created: bool)

  /** Create-or-update: on a hit the first matching record takes every key of
      the body; on a miss the body is appended as it is. */
  function Upsert(ms: seq<Material>, body: Material): (r: UpsertResult)
    ensures r.created <==> forall j :: 0 <= j < |ms| ==> !Matches(ms[j], IdOf(body))
    ensures r.created ==> r.items == ms + [body]
    ensures !r.created ==> |r.items| == |ms|
  {
    match FindIndex(ms, IdOf(body))
    case Some(i) => Upserted(MergeAt(ms, i, body), false)
    case None => Upserted(ms + [body], true)
  }

  /** The four fields the strict update demands, in the order they are reported. */
  const RequiredFields: seq<string> := ["description", "category", "unitPrice", "currency"]

  /** A field counts as empty when the body lacks it or holds the empty string;
      no other value (0, false, null) is empty. */
  predicate IsBlank(body: Material, field: string): (r: bool)
    ensures field !in body ==> r
    ensures field in body && body[field].Str? ==> (r <==> body[field].s == "")
    ensures field in body && !body[field].Str? ==> !r
  {
    field !in body || body[field] == Str("")
  }

  /** `a` is `b` with some elements left out, the rest in their order. */
  ghost predicate IsSubsequence(a: seq<string>, b: seq<string>)
    decreases |b|
  {
    a == [] || (b != [] && ((a[0] == b[0] && IsSubsequence(a[1..], b[1..])) || IsSubsequence(a, b[1..])))
  }

  /** The `filter` over the field names: every empty one, in list order. */
  function BlankFields(fields: seq<string>, body: Material): (r: seq<string>)
    ensures forall f {:trigger f in r} :: f in r <==> f in fields && IsBlank(body, f)
    ensures IsSubsequence(r, fields)
  {
    if fields == [] then []
    else
      var rest := BlankFields(fields[1..], body);
      if IsBlank(body, fields[0]) then
        assert ([fields[0]] + rest)[1..] == rest;
        [fields[0]] + rest
      else rest
  }

  /** `part` occurs in `text` starting at position `i`. */
  ghost predicate OccursAt(part: string, text: string, i: int)
  {
    0 <= i && i + |part| <= |text| && text[i..i + |part|] == part
  }

  ghost predicate Occurs(part: string, text: string)
  {
    exists i :: OccursAt(part, text, i)
  }

  ghost predicate EndsWith(text: string, suffix: string)
  {
    OccursAt(suffix, text, |text| - |suffix|)
  }

  /** What occurs in a text still occurs after anything is put around it. */
  lemma OccursWithin(part: string, before: string, text: string, after: string)
    requires Occurs(part, text)
    ensures Occurs(part, before + text + after)
  {
    var i :| OccursAt(part, text, i);
    assert (before + text + after)[|before| + i..|before| + i + |part|] == text[i..i + |part|];
    assert OccursAt(part, before + text + after, |before| + i);
  }

  /** `Array.prototype.join`: the parts in order with the separator between
      them; each part occurs in the result. */
  function Join(parts: seq<string>, sep: string): (r: string)
    ensures parts == [] ==> r == ""
    ensures |parts| == 1 ==> r == parts[0]
    ensures forall k :: 0 <= k < |parts| ==> Occurs(parts[k], r)
  {
    if parts == [] then ""
    else if |parts| == 1 then
      assert OccursAt(parts[0], parts[0], 0);
      parts[0]
    else
      var rest := Join(parts[1..], sep);
      assert OccursAt(parts[0], parts[0] + sep + rest, 0);
      forall k | 1 <= k < |parts| ensures Occurs(parts[k], parts[0] + sep + rest) {
        assert parts[k] == parts[1..][k - 1];
        OccursWithin(parts[k], parts[0] + sep, rest, "");
        assert parts[0] + sep + rest + "" == parts[0] + sep + rest;
      }
      parts[0] + sep + rest
  }

  /** Appending a part puts the separator and then the part at the end: with
      the two base cases of `Join`, the parts appear in their order with one
      separator between neighbours. */
  lemma {:induction false} JoinSnoc(parts: seq<string>, p: string, sep: string)
    requires parts != []
    ensures Join(parts + [p], sep) == Join(parts, sep) + sep + p
  {
    if |parts| == 1 {
      assert (parts + [p])[1..] == [p];
    } else {
      assert (parts + [p])[1..] == parts[1..] + [p];
      JoinSnoc(parts[1..], p, sep);
    }
  }

  /** The outcome of the checks the strict update makes before it looks the id up. */
  datatype Precheck = MissingFields(fields: seq<string>) | AlreadyUpdated | Admitted

  /** Validation first (every empty required field), then the update-once tracker. */
  function CheckPut(tracker: seq<string>, id: string, body: Material): (r: Precheck)
    ensures r.MissingFields? <==> exists f :: f in RequiredFields && IsBlank(body, f)
    ensures r.MissingFields? ==> r.fields != [] && IsSubsequence(r.fields, RequiredFields)
    ensures r.MissingFields? ==> forall f :: f in r.fields <==> f in RequiredFields && IsBlank(body, f)
    ensures r.AlreadyUpdated? <==> !r.MissingFields? && id in tracker
  {
    var blank := BlankFields(RequiredFields, body);
    assert forall f :: f in RequiredFields && IsBlank(body, f) ==> f in blank;
    if |blank| > 0 then
      assert blank[0] in blank;
      MissingFields(blank)
    else if id in tracker then AlreadyUpdated
    else Admitted
  }

  const NotFoundMessage: string := "Material not found"

  /** The 400 text of the validation: the empty fields joined by ", " in their
      order, then " cannot be empty". */
  function MissingFieldsMessage(fields: seq<string>): (r: string)
    ensures r == Join(fields, ", ") + " cannot be empty"
    ensures forall k :: 0 <= k < |fields| ==> Occurs(fields[k], r)
    ensures EndsWith(r, " cannot be empty")
  {
    var joined := Join(fields, ", ");
    forall k | 0 <= k < |fields| ensures Occurs(fields[k], joined + " cannot be empty") {
      OccursWithin(fields[k], "", joined, " cannot be empty");
      assert "" + joined + " cannot be empty" == joined + " cannot be empty";
    }
    joined + " cannot be empty"
  }

  /** The openings and endings of the texts that name one id. */
  const MaterialLead: string := "Material with ID '"
  const NewMaterialLead: string := "New material with ID '"
  const UpdatedOutcome: string := "' updated successfully"
  const CreatedOutcome: string := "' created successfully"
  const AlreadyUpdatedOutcome: string := "' has already been updated"

  /** A text that names one id between an opening and an ending, as the
      template literals of the create-or-update and the tracker test do. */
  function IdMessage(lead: string, id: string, outcome: string): (r: string)
    ensures |r| == |lead| + |id| + |outcome|
    ensures OccursAt(lead, r, 0)
    ensures OccursAt(id, r, |lead|)
    ensures EndsWith(r, outcome)
  {
    lead + id + outcome
  }

  /** Such a text determines the id it names: two ids give the same text only
      when they are the same id. */
  lemma IdMessageNamesId(lead: string, a: string, b: string, outcome: string)
    ensures IdMessage(lead, a, outcome) == IdMessage(lead, b, outcome) <==> a == b
  {
  }
}
