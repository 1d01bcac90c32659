/**
 The route handlers of the Materials service as one state machine. The state
 is the document on disk (`materials.json`) and the process-lifetime list of
 ids that the strict update has already changed. Every handler loads the
 document, decides, and when it changes something writes the whole document
 back. Whether the file can be read and parsed, and whether it can be written,
 are parameters of each handler: a failure of either answers 500, and so does
 a lookup in a document whose `materials` is not a list.
 */
module Service {
  import opened JsonValues
  import opened Repository

  datatype Body =
    | One(material: Material)
    | All(materials: seq<Material>)
    | Message(text: string)
    | Json(value: Value)
    | Empty
    | ServerError

  datatype Response = Response(status: nat, body: Body)

  const Failed: Response := Response(500, ServerError)
  const Missing: Response := Response(404, Message(NotFoundMessage))

  /** `materialsData.materials` used as a list; `None` when it is missing or
      not a list, where `find`/`findIndex` on it throw. */
  function MaterialsOf(document: Document): (r: Option<seq<Material>>)
    ensures r.Some? <==> MaterialsKey in document && document[MaterialsKey].Records?
    ensures r.Some? ==> r.value == document[MaterialsKey].items
  {
    if MaterialsKey in document && document[MaterialsKey].Records?
    then Some(document[MaterialsKey].items)
    else None
  }

  /** Loading the file and looking at its list at once, as the lookup routes do:
      `None` when the file cannot be read or parsed (`readable` is false) or when
      `materials` is not a list. */
  function Load(readable: bool, document: Document): (r: Option<seq<Material>>)
    ensures r.Some? <==> readable && MaterialsKey in document && document[MaterialsKey].Records?
    ensures r.Some? ==> r.value == document[MaterialsKey].items
  {
    if readable then MaterialsOf(document) else None
  }

  /** The `for ... in` loop of the create-or-update: copies the body's keys onto
      the existing record one at a time. In whatever order the keys are visited,
      the result is the shallow merge with the body winning. */
  method OverwriteFields(existing: Material, body: Material) returns (record: Material)
    ensures record == ShallowMerge(existing, body)
  {
    record := existing;
    var pending := body.Keys;
    while pending != {}
      invariant pending <= body.Keys
      invariant record.Keys == existing.Keys + (body.Keys - pending)
      invariant forall k :: k in body && k !in pending ==> record[k] == body[k]
      invariant forall k :: k in existing && k !in body ==> record[k] == existing[k]
      invariant forall k :: k in existing && k in pending ==> record[k] == existing[k]
      decreases pending
    {
      var key :| key in pending;
      record := record[key := body[key]];
      pending := pending - {key};
    }
    assert record.Keys == ShallowMerge(existing, body).Keys;
  }

  /** The tracker never holds an id twice. */
  ghost predicate Distinct(ids: seq<string>)
  {
    forall i, j :: 0 <= i < j < |ids| ==> ids[i] != ids[j]
  }

  class MaterialService {
    /** The parsed contents of the materials file, as last written. */
    var document: Document
    /** `updatedMaterialIds`: ids the strict update has changed; it only grows. */
    var updatedIds: seq<string>

    ghost predicate Valid()
      reads this
    {
      Distinct(updatedIds)
    }

    /** Process start: the file as it is, and an empty tracker. */
    constructor (initial: Document)
      ensures Valid()
      ensures document == initial && updatedIds == []
    {
      document := initial;
      updatedIds := [];
    }

    /** GET /odata/Materials: whatever `materials` holds, sent as JSON; a
        missing key sends `undefined`, that is an empty body. */
    method ListAll(readable: bool) returns (resp: Response)
      ensures !readable ==> resp == Failed
      ensures readable && MaterialsKey !in document ==> resp == Response(200, Empty)
      ensures readable && MaterialsKey in document ==>
                resp.status == 200
                && (document[MaterialsKey].Records? ==> resp.body == All(document[MaterialsKey].items))
                && (document[MaterialsKey].Scalar? ==> resp.body == Json(document[MaterialsKey].value))
    {
      if !readable {
        return Failed;
      }
      if MaterialsKey !in document {
        return Response(200, Empty);
      }
      match document[MaterialsKey]
      case Records(items) => resp := Response(200, All(items));
      case Scalar(value) => resp := Response(200, Json(value));
    }

    /** GET /odata/Materials/{id}: the first record whose id is the path id. */
    method GetById(id: string, readable: bool) returns (resp: Response)
      ensures Load(readable, document).None? ==> resp == Failed
      ensures Load(readable, document).Some? ==>
                var ms := document[MaterialsKey].items;
                && (resp.status == 404 <==> forall j :: 0 <= j < |ms| ==> !Matches(ms[j], Some(Str(id))))
                && (resp.status == 404 ==> resp.body == Message(NotFoundMessage))
                && (resp.status != 404 ==>
                      && resp.status == 200 && resp.body.One?
                      && exists i :: 0 <= i < |ms| && ms[i] == resp.body.material
                                     && Matches(ms[i], Some(Str(id)))
                                     && forall j :: 0 <= j < i ==> !Matches(ms[j], Some(Str(id))))
    {
      var loaded := Load(readable, document);
      if loaded.None? {
        return Failed;
      }
      var found := Find(loaded.value, Some(Str(id)));
      if found.None? {
        return Missing;
      }
      resp := Response(200, One(found.value));
    }

    /** POST /odata/Materials: create-or-update by the body's own id, which may
        be absent (an absent id matches records that lack one). */
    method Post(body: Material, readable: bool, writable: bool) returns (resp: Response)
      modifies this`document
      ensures Load(readable, old(document)).None? ==> resp == Failed && document == old(document)
      ensures Load(readable, old(document)).Some? ==>
                var ms := old(document)[MaterialsKey].items;
                var u := Upsert(ms, body);
                && (!writable ==> resp == Failed && document == old(document))
                && (writable ==> document == old(document)[MaterialsKey := Records(u.items)])
                && (writable && u.created ==> resp == Response(201, Message(IdMessage(NewMaterialLead, Show(IdOf(body)), CreatedOutcome))))
                && (writable && !u.created ==> resp == Response(200, Message(IdMessage(MaterialLead, Show(IdOf(body)), UpdatedOutcome))))
    {
      var loaded := Load(readable, document);
      if loaded.None? {
        return Failed;
      }
      var ms := loaded.value;
      var index := FindIndex(ms, IdOf(body));
      if index.Some? {
        var merged := OverwriteFields(ms[index.value], body);
        ms := ms[index.value := merged];
        if !writable {
          return Failed;
        }
        document := document[MaterialsKey := Records(ms)];
        resp := Response(200, Message(IdMessage(MaterialLead, Show(IdOf(body)), UpdatedOutcome)));
      } else {
        ms := ms + [body];
        if !writable {
          return Failed;
        }
        document := document[MaterialsKey := Records(ms)];
        resp := Response(201, Message(IdMessage(NewMaterialLead, Show(IdOf(body)), CreatedOutcome)));
      }
    }

    /** PUT /odata/Materials/{id}: validation, then the tracker, then existence;
        on success the first match becomes its shallow merge with the body and
        the id is recorded. The list is first used at the lookup, so a document
        without a `materials` list still gets the two 400 answers. The id is
        recorded before the file is written, so a failed write still leaves it
        recorded. */
    method Put(id: string, body: Material, readable: bool, writable: bool) returns (resp: Response)
      requires Valid()
      modifies this
      ensures Valid()
      ensures updatedIds == old(updatedIds) || updatedIds == old(updatedIds) + [id]
      ensures !readable ==> resp == Failed && unchanged(this)
      ensures readable ==>
                match CheckPut(old(updatedIds), id, body)
                case MissingFields(fields) =>
                  resp == Response(400, Message(MissingFieldsMessage(fields))) && unchanged(this)
                case AlreadyUpdated =>
                  resp == Response(400, Message(IdMessage(MaterialLead, id, AlreadyUpdatedOutcome))) && unchanged(this)
                case Admitted =>
                  match MaterialsOf(old(document))
                  case None => resp == Failed && unchanged(this)
                  case Some(ms) =>
                    match FindIndex(ms, Some(Str(id)))
                    case None => resp == Missing && unchanged(this)
                    case Some(i) =>
                      && updatedIds == old(updatedIds) + [id]
                      && (!writable ==> resp == Failed && document == old(document))
                      && (writable ==> document == old(document)[MaterialsKey := Records(MergeAt(ms, i, body))]
                                       && resp == Response(200, One(ShallowMerge(ms[i], body))))
    {
      if !readable {
        return Failed;
      }
      var check := CheckPut(updatedIds, id, body);
      if check.MissingFields? {
        return Response(400, Message(MissingFieldsMessage(check.fields)));
      }
      if check.AlreadyUpdated? {
        return Response(400, Message(IdMessage(MaterialLead, id, AlreadyUpdatedOutcome)));
      }
      var loaded := MaterialsOf(document);
      if loaded.None? {
        return Failed;
      }
      var ms := loaded.value;
      var index := FindIndex(ms, Some(Str(id)));
      if index.None? {
        return Missing;
      }
      var i := index.value;
      ms := ms[i := ShallowMerge(ms[i], body)];
      updatedIds := updatedIds + [id];
      if !writable {
        return Failed;
      }
      document := document[MaterialsKey := Records(ms)];
      resp := Response(200, One(ms[i]));
    }

    /** DELETE /odata/Materials/{id}: splices out the first match and answers
        with it. */
    method Delete(id: string, readable: bool, writable: bool) returns (resp: Response)
      modifies this`document
      ensures Load(readable, old(document)).None? ==> resp == Failed && document == old(document)
      ensures Load(readable, old(document)).Some? ==>
                var ms := old(document)[MaterialsKey].items;
                match FindIndex(ms, Some(Str(id)))
                case None => resp == Missing && document == old(document)
                case Some(i) =>
                  && (!writable ==> resp == Failed && document == old(document))
                  && (writable ==> document == old(document)[MaterialsKey := Records(RemoveAt(ms, i))]
                                   && resp == Response(200, One(ms[i])))
    {
      var loaded := Load(readable, document);
      if loaded.None? {
        return Failed;
      }
      var ms := loaded.value;
      var index := FindIndex(ms, Some(Str(id)));
      if index.None? {
        return Missing;
      }
      var deleted := ms[index.value];
      ms := ms[..index.value] + ms[index.value + 1..];
      if !writable {
        return Failed;
      }
      document := document[MaterialsKey := Records(ms)];
      resp := Response(200, One(deleted));
    }
  }
}
