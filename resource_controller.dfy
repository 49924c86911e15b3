/** The server side: `ResourceController` acting on the `resources` table
    (a map from id to record, with the next auto-increment id) and on the
    public image disk (the set of stored paths). */
module ResourceController {
  import opened Records
  import opened Text
  import opened Validation

  /** A stored row without its key. */
  datatype Record = Record(name: string, kind: string, description: Option<string>, images: Option<Path>)

  /** What a request ends in: the redirect to `resources.index`, a validation
      failure naming the offending fields, or a 404 from route-model binding. */
  datatype Response = Redirect | ValidationFailed(fields: set<Field>) | NotFound

  /** Name and type as every successful write leaves them. */
  predicate WellFormed(rec: Record)
  {
    !Blank(rec.name) && |rec.name| <= MaxTextLength
    && !Blank(rec.kind) && |rec.kind| <= MaxTextLength
  }

  /** `$request->description` on create: a missing key reads as null. */
  function DescriptionOf(v: Value): Option<string>
  {
    if v.Str? then Some(v.s) else None
  }

  /** An upload is present (`hasFile('image')`). */
  predicate Uploaded(sub: Submission)
  {
    sub.image.File?
  }

  /** `$request->name` for a value validation has let through. */
  function TextOf(v: Value): string
  {
    if v.Str? then v.s else ""
  }

  /** The record `Resource::create` inserts for a submission. */
  function Created(sub: Submission, image: Option<Path>): (rec: Record)
    ensures Acceptable(sub) ==> WellFormed(rec)
    ensures rec.images == image
  {
    Record(TextOf(sub.name), TextOf(sub.kind), DescriptionOf(sub.description), image)
  }

  /** The record after `$resource->update($request->only('name', 'type',
      'description'))` with `images` already set to `image`: a description
      key the request does not carry is left as it was. */
  function Updated(prior: Record, sub: Submission, image: Option<Path>): (rec: Record)
    ensures Acceptable(sub) ==> WellFormed(rec)
    ensures rec.images == image
  {
    Record(TextOf(sub.name), TextOf(sub.kind),
           if sub.description.Missing? then prior.description else DescriptionOf(sub.description),
           image)
  }

  /** The row the page receives for a stored record. */
  function RowOf(id: nat, rec: Record): Resource
  {
    Resource(id, rec.name, rec.kind, rec.description, rec.images)
  }

  /** The rows with an id below `k`, in primary-key order. */
  function Listing(table: map<nat, Record>, k: nat): (rows: seq<Resource>)
    ensures |rows| <= k
    ensures (forall id :: id in table ==> id >= k) ==> rows == []
  {
    if k == 0 then []
    else Listing(table, k - 1) + (if k - 1 in table then [RowOf(k - 1, table[k - 1])] else [])
  }

  /** `Listing` holds exactly the rows of the table below `k`, each once,
      with increasing ids. */
  lemma {:induction false} ListingExact(table: map<nat, Record>, k: nat)
    ensures forall i :: 0 <= i < |Listing(table, k)| ==> Listing(table, k)[i].id < k
    ensures forall i :: 0 <= i < |Listing(table, k)| ==>
      Listing(table, k)[i].id in table && Listing(table, k)[i] == RowOf(Listing(table, k)[i].id, table[Listing(table, k)[i].id])
    ensures forall i, j :: 0 <= i < j < |Listing(table, k)| ==> Listing(table, k)[i].id < Listing(table, k)[j].id
    ensures forall id :: 0 <= id < k && id in table ==> RowOf(id, table[id]) in Listing(table, k)
  {
    if k > 0 {
      ListingExact(table, k - 1);
    }
  }

  /** The disk paths a record's `images` points to: none or one. */
  function Owned(rec: Record): set<Path>
  {
    if rec.images.Some? then {rec.images.value} else {}
  }

  /** The store invariant: ids are below the next auto-increment value;
      every record is well formed; every image path is on the disk and
      belongs to one record only. */
  ghost predicate Consistent(table: map<nat, Record>, disk: set<Path>, nextId: nat)
  {
    && (forall id :: id in table ==> id < nextId)
    && (forall id :: id in table ==> WellFormed(table[id]))
    && (forall id :: id in table ==> Owned(table[id]) <= disk)
    && (forall a, b :: a in table && b in table && a != b ==> Owned(table[a]) !! Owned(table[b]))
  }

  /** Inserting a well-formed record under the next id, with its image (if
      any) newly added to the disk, keeps the invariant. */
  lemma InsertKeepsConsistent(table: map<nat, Record>, disk: set<Path>, nextId: nat, rec: Record, added: set<Path>)
    requires Consistent(table, disk, nextId)
    requires WellFormed(rec) && Owned(rec) <= added && added !! disk
    ensures nextId !in table
    ensures Consistent(table[nextId := rec], disk + added, nextId + 1)
  {
    var t := table[nextId := rec];
    forall a, b | a in t && b in t && a != b
      ensures Owned(t[a]) !! Owned(t[b])
    {
      if a != nextId && b != nextId {
        assert Owned(t[a]) !! Owned(t[b]);
      }
    }
  }

  /** Rewriting a record's fields, keeping its image, keeps the invariant. */
  lemma RewriteKeepsConsistent(table: map<nat, Record>, disk: set<Path>, nextId: nat, id: nat, rec: Record)
    requires Consistent(table, disk, nextId) && id in table
    requires WellFormed(rec) && rec.images == table[id].images
    ensures Consistent(table[id := rec], disk, nextId)
  {
    var t := table[id := rec];
    assert forall a :: a in t ==> Owned(t[a]) == Owned(table[a]);
  }

  /** Repointing a record at a newly stored image, after deleting its old
      one from the disk, keeps the invariant. */
  lemma ReplaceImageKeepsConsistent(table: map<nat, Record>, disk: set<Path>, nextId: nat, id: nat, rec: Record, p: Path)
    requires Consistent(table, disk, nextId) && id in table
    requires WellFormed(rec) && rec.images == Some(p) && p !in disk
    ensures Consistent(table[id := rec], disk - Owned(table[id]) + {p}, nextId)
  {
    var t, d := table[id := rec], disk - Owned(table[id]) + {p};
    forall a | a in t ensures Owned(t[a]) <= d {
      if a != id {
        assert Owned(t[a]) !! Owned(table[id]);
      }
    }
    forall a, b | a in t && b in t && a != b
      ensures Owned(t[a]) !! Owned(t[b])
    {
      if a != id && b != id {
        assert Owned(t[a]) !! Owned(t[b]);
      }
    }
  }

  /** Deleting a record keeps the invariant. */
  lemma RemoveKeepsConsistent(table: map<nat, Record>, disk: set<Path>, nextId: nat, id: nat)
    requires Consistent(table, disk, nextId)
    ensures Consistent(table - {id}, disk, nextId)
  {
  }

  class Controller {
    var table: map<nat, Record>
    var disk: set<Path>
    var nextId: nat

    ghost predicate Valid()
      reads this
    {
      Consistent(table, disk, nextId)
    }

    /** An empty table and an empty disk. */
    constructor ()
      ensures Valid()
      ensures table == map[] && disk == {} && nextId == 1
    {
      table, disk, nextId := map[], {}, 1;
    }

    /** `index`: every record of the table, in primary-key order. */
    function Index(): (rows: seq<Resource>)
      reads this
      requires Valid()
      ensures forall i :: 0 <= i < |rows| ==> rows[i].id in table && rows[i] == RowOf(rows[i].id, table[rows[i].id])
      ensures forall i, j :: 0 <= i < j < |rows| ==> rows[i].id < rows[j].id
      ensures forall id :: id in table ==> RowOf(id, table[id]) in rows
    {
      ListingExact(table, nextId);
      Listing(table, nextId)
    }

    /** `store`: validate; then write the upload, if any, under `newPath`,
        the name Storage generates; then insert the record under the next id. */
    method Store(sub: Submission, newPath: Path) returns (resp: Response)
      requires Valid()
      requires newPath !in disk
      modifies this
      ensures Valid()
      ensures Errors(StoreRules, sub) != {} ==>
        resp == ValidationFailed(Errors(StoreRules, sub))
        && table == old(table) && disk == old(disk) && nextId == old(nextId)
      ensures Errors(StoreRules, sub) == {} ==>
        resp == Redirect
        && old(nextId) !in old(table) && nextId == old(nextId) + 1
        && table == old(table)[old(nextId) := Created(sub, if Uploaded(sub) then Some(newPath) else None)]
        && disk == old(disk) + (if Uploaded(sub) then {newPath} else {})
    {
      var errors := Errors(StoreRules, sub);
      if errors != {} {
        return ValidationFailed(errors);
      }
      StoreRulesAccept(sub);
      var imagePath: Option<Path> := None;
      var added: set<Path> := {};
      if Uploaded(sub) {
        imagePath, added := Some(newPath), {newPath};
      }
      InsertKeepsConsistent(table, disk, nextId, Created(sub, imagePath), added);
      disk := disk + added;
      table := table[nextId := Created(sub, imagePath)];
      nextId := nextId + 1;
      resp := Redirect;
    }

    /** `update`: a 404 for an unknown id; validate; with an upload, delete
        the old image, write the new one under `newPath` and repoint `images`;
        then overwrite name, type and description. */
    method Update(id: nat, sub: Submission, newPath: Path) returns (resp: Response)
      requires Valid()
      requires newPath !in disk
      modifies this
      ensures Valid()
      ensures nextId == old(nextId)
      ensures id !in old(table) ==>
        resp == NotFound && table == old(table) && disk == old(disk)
      ensures id in old(table) && Errors(UpdateRules, sub) != {} ==>
        resp == ValidationFailed(Errors(UpdateRules, sub))
        && table == old(table) && disk == old(disk)
      ensures id in old(table) && Errors(UpdateRules, sub) == {} ==>
        resp == Redirect
        && table == old(table)[id := Updated(old(table)[id], sub,
                                             if Uploaded(sub) then Some(newPath) else old(table)[id].images)]
        && disk == (if Uploaded(sub) then old(disk) - Owned(old(table)[id]) + {newPath} else old(disk))
    {
      if id !in table {
        return NotFound;
      }
      var errors := Errors(UpdateRules, sub);
      if errors != {} {
        return ValidationFailed(errors);
      }
      UpdateRulesAreStoreRules();
      StoreRulesAccept(sub);
      var resource := table[id];
      if Uploaded(sub) {
        ReplaceImageKeepsConsistent(table, disk, nextId, id, Updated(resource, sub, Some(newPath)), newPath);
        if resource.images.Some? {
          disk := disk - {resource.images.value};
        }
        disk := disk + {newPath};
        table := table[id := Updated(resource, sub, Some(newPath))];
      } else {
        RewriteKeepsConsistent(table, disk, nextId, id, Updated(resource, sub, resource.images));
        table := table[id := Updated(resource, sub, resource.images)];
      }
      resp := Redirect;
    }

    /** `destroy`: a 404 for an unknown id; otherwise the record is deleted
        and its image stays on the disk. */
    method Destroy(id: nat) returns (resp: Response)
      requires Valid()
      modifies this
      ensures Valid()
      ensures nextId == old(nextId) && disk == old(disk)
      ensures id !in old(table) ==> resp == NotFound && table == old(table)
      ensures id in old(table) ==> resp == Redirect && table == old(table) - {id}
      ensures id in old(table) ==> Owned(old(table)[id]) <= disk
    {
      if id !in table {
        return NotFound;
      }
      RemoveKeepsConsistent(table, disk, nextId, id);
      table := table - {id};
      resp := Redirect;
    }
  }
}
