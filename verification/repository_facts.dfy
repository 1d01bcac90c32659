/**
 Properties that relate several repository operations: what a lookup sees
 after a create-or-update, a merge or a removal, idempotence of the
 create-or-update, which operations keep ids unique, and that an id recorded
 by the strict update never passes its checks again.
 */
module RepositoryFacts {
  import opened JsonValues
  import opened Repository

  /** No two records have ids that are `===` (`undefined` counts as one id). */
  ghost predicate UniqueIds(ms: seq<Material>)
  {
    forall i, j :: 0 <= i < j < |ms| ==> !StrictEquals(IdOf(ms[i]), IdOf(ms[j]))
  }

  /** Index `i` holds the first record with this id. */
  ghost predicate FirstMatch(ms: seq<Material>, id: Option<Value>, i: nat)
  {
    i < |ms| && Matches(ms[i], id) && forall j :: 0 <= j < i ==> !Matches(ms[j], id)
  }

  /** The first match is unique, and it is what `findIndex` answers. */
  lemma FirstMatchIsFindIndex(ms: seq<Material>, id: Option<Value>, i: nat)
    requires FirstMatch(ms, id, i)
    ensures FindIndex(ms, id) == Some(i)
  {
  }

  /** A merge whose patch carries no other id keeps the record's id. */
  lemma MergeKeepsId(base: Material, patch: Material)
    requires IdKey !in patch || IdOf(patch) == IdOf(base)
    ensures IdOf(ShallowMerge(base, patch)) == IdOf(base)
  {
  }

  /** After merging the first match with a patch that does not change its id,
      the lookup finds the merged record at the same place. */
  lemma FindAfterMerge(ms: seq<Material>, i: nat, patch: Material)
    requires i < |ms| && FirstMatch(ms, IdOf(ms[i]), i)
    requires IdKey !in patch || IdOf(patch) == IdOf(ms[i])
    ensures FindIndex(MergeAt(ms, i, patch), IdOf(ms[i])) == Some(i)
    ensures Find(MergeAt(ms, i, patch), IdOf(ms[i])) == Some(ShallowMerge(ms[i], patch))
  {
  }

  /** Create-or-update on an id already present: the first record with that id
      takes every key of the body, keeps its other keys, and nothing else moves. */
  lemma UpsertOnHit(ms: seq<Material>, body: Material, i: nat)
    requires FirstMatch(ms, IdOf(body), i)
    ensures !Upsert(ms, body).created
    ensures |Upsert(ms, body).items| == |ms|
    ensures Upsert(ms, body).items[i] == ShallowMerge(ms[i], body)
    ensures forall j :: 0 <= j < |ms| && j != i ==> Upsert(ms, body).items[j] == ms[j]
  {
  }

  /** After a create-or-update the body's id finds the record it wrote: the body
      itself when it was appended, the merged record otherwise. An object or
      array id is never `===` to anything, so it finds nothing. */
  lemma {:induction false} FindAfterUpsert(ms: seq<Material>, body: Material)
    ensures Upsert(ms, body).created ==>
              Find(Upsert(ms, body).items, IdOf(body))
                == if StrictEquals(IdOf(body), IdOf(body)) then Some(body) else None
    ensures !Upsert(ms, body).created ==>
              var i := FindIndex(ms, IdOf(body)).value;
              Find(Upsert(ms, body).items, IdOf(body)) == Some(ShallowMerge(ms[i], body))
  {
    var id := IdOf(body);
    match FindIndex(ms, id)
    case None =>
      var r := ms + [body];
      if StrictEquals(id, id) {
        assert FirstMatch(r, id, |ms|);
        FirstMatchIsFindIndex(r, id, |ms|);
      } else {
        assert forall j :: 0 <= j < |r| ==> !Matches(r[j], id);
      }
    case Some(i) =>
      FindAfterMerge(ms, i, body);
  }

  /** Create-or-update is idempotent on the collection for a body whose id is
      `undefined`, a string, a number, a boolean or null: sending it twice leaves
      what sending it once leaves, and the second call is an update. A body
      whose id is an object or an array matches nothing, so each call appends
      it again. */
  lemma {:induction false} UpsertIdempotent(ms: seq<Material>, body: Material)
    ensures StrictEquals(IdOf(body), IdOf(body)) ==>
              && !Upsert(Upsert(ms, body).items, body).created
              && Upsert(Upsert(ms, body).items, body).items == Upsert(ms, body).items
    ensures !StrictEquals(IdOf(body), IdOf(body)) ==>
              && Upsert(ms, body).created
              && Upsert(Upsert(ms, body).items, body).created
              && Upsert(Upsert(ms, body).items, body).items == ms + [body, body]
  {
    var id := IdOf(body);
    var once := Upsert(ms, body).items;
    if !StrictEquals(id, id) {
      assert once == ms + [body];
      assert once + [body] == ms + [body, body];
      return;
    }
    match FindIndex(ms, id)
    case None =>
      assert FirstMatch(once, id, |ms|);
      FirstMatchIsFindIndex(once, id, |ms|);
      assert ShallowMerge(body, body) == body;
    case Some(i) =>
      MergeKeepsId(ms[i], body);
      assert FirstMatch(once, id, i);
      FirstMatchIsFindIndex(once, id, i);
      var m := ShallowMerge(ms[i], body);
      assert ShallowMerge(m, body) == m;
  }

  /** Create-or-update keeps ids unique: a hit keeps the record's id, a miss
      appends an id nobody has. */
  lemma UpsertKeepsIdsUnique(ms: seq<Material>, body: Material)
    requires UniqueIds(ms)
    ensures UniqueIds(Upsert(ms, body).items)
  {
  }

  /** A strict update whose body carries no id, or the record's own id, keeps
      ids unique. */
  lemma MergeKeepsIdsUnique(ms: seq<Material>, i: nat, patch: Material)
    requires UniqueIds(ms) && i < |ms|
    requires IdKey !in patch || IdOf(patch) == IdOf(ms[i])
    ensures UniqueIds(MergeAt(ms, i, patch))
  {
  }

  /** But a strict-update body may carry another record's `materialId`, and the
      merge then leaves two records with the same id. */
  lemma MergeCanDuplicateIds()
    ensures var ms := [map[IdKey := Str("M1")], map[IdKey := Str("M2")]];
            var patch := map[IdKey := Str("M2")];
            UniqueIds(ms) && !UniqueIds(MergeAt(ms, 0, patch))
  {
    var ms := [map[IdKey := Str("M1")], map[IdKey := Str("M2")]];
    var patch := map[IdKey := Str("M2")];
    assert IdOf(MergeAt(ms, 0, patch)[0]) == IdOf(MergeAt(ms, 0, patch)[1]);
  }

  /** After removing the first match, the lookup finds the next record with
      that id, if any. */
  lemma {:induction false} FindAfterRemove(ms: seq<Material>, id: Option<Value>, i: nat)
    requires FirstMatch(ms, id, i)
    ensures Find(RemoveAt(ms, i), id) == Find(ms[i + 1..], id)
  {
    var r := RemoveAt(ms, i);
    var tail := ms[i + 1..];
    match FindIndex(tail, id)
    case None =>
      assert forall j :: 0 <= j < |r| ==> IdOf(r[j]) != id by {
        forall j | 0 <= j < |r| ensures IdOf(r[j]) != id {
          if j >= i { assert r[j] == tail[j - i]; }
        }
      }
    case Some(k) =>
      assert r[i + k] == tail[k];
      assert FirstMatch(r, id, i + k) by {
        forall j | 0 <= j < i + k ensures IdOf(r[j]) != id {
          if j >= i { assert r[j] == tail[j - i]; }
        }
      }
      FirstMatchIsFindIndex(r, id, i + k);
  }

  /** With unique ids, a removed id is gone: a second DELETE finds nothing. */
  lemma RemoveLeavesNoMatch(ms: seq<Material>, id: Option<Value>, i: nat)
    requires UniqueIds(ms) && FirstMatch(ms, id, i)
    ensures Find(RemoveAt(ms, i), id).None?
    ensures |RemoveAt(ms, i)| == |ms| - 1
  {
  }

  /** Removing a record keeps ids unique. */
  lemma RemoveKeepsIdsUnique(ms: seq<Material>, i: nat)
    requires UniqueIds(ms) && i < |ms|
    ensures UniqueIds(RemoveAt(ms, i))
  {
  }

  /** The filter keeps a field exactly when it is empty. */
  function BlankIf(body: Material, field: string): seq<string>
  {
    if IsBlank(body, field) then [field] else []
  }

  lemma BlankFieldsCons(field: string, rest: seq<string>, body: Material)
    ensures BlankFields([field] + rest, body) == BlankIf(body, field) + BlankFields(rest, body)
  {
  }

  /** The report of the strict update lists exactly the empty required fields,
      in the order description, category, unitPrice, currency. */
  lemma MissingFieldsInOrder(body: Material)
    ensures BlankFields(RequiredFields, body) ==
              BlankIf(body, "description") + BlankIf(body, "category")
              + BlankIf(body, "unitPrice") + BlankIf(body, "currency")
  {
    var d, c, u, cu := "description", "category", "unitPrice", "currency";
    var last := [cu];
    var three := [u] + last;
    var four := [c] + three;
    assert RequiredFields == [d] + four;
    BlankFieldsCons(cu, [], body);
    assert [cu] + [] == last;
    BlankFieldsCons(u, last, body);
    BlankFieldsCons(c, three, body);
    BlankFieldsCons(d, four, body);
    assert BlankFields([], body) == [];
    assert BlankFields(RequiredFields, body)
        == BlankIf(body, d) + (BlankIf(body, c) + (BlankIf(body, u) + BlankIf(body, cu)));
  }

  /** The 400 answer of the strict update names every empty required field. */
  lemma MessageNamesMissingField(body: Material, field: string)
    requires field in RequiredFields && IsBlank(body, field)
    ensures Occurs(field, MissingFieldsMessage(BlankFields(RequiredFields, body)))
  {
    var fields := BlankFields(RequiredFields, body);
    assert field in fields;
  }

  /** The 400 text lists the empty fields in list order, comma-joined: a body
      lacking a description and a currency gets exactly this text. */
  lemma MissingDescriptionAndCurrency(body: Material)
    requires IsBlank(body, "description") && !IsBlank(body, "category")
    requires !IsBlank(body, "unitPrice") && IsBlank(body, "currency")
    ensures MissingFieldsMessage(BlankFields(RequiredFields, body)) == "description, currency cannot be empty"
  {
    MissingFieldsInOrder(body);
    assert BlankFields(RequiredFields, body) == ["description"] + ["currency"];
    JoinSnoc(["description"], "currency", ", ");
  }

  /** Once an id is recorded it never passes the strict update's checks again:
      a body with every required field gets "already updated", any other body
      gets the missing-fields answer first. */
  lemma RecordedIdIsRejected(tracker: seq<string>, id: string, body: Material)
    requires id in tracker
    ensures CheckPut(tracker, id, body) != Admitted
    ensures (forall f :: f in RequiredFields ==> !IsBlank(body, f)) ==> CheckPut(tracker, id, body) == AlreadyUpdated
  {
  }
}
