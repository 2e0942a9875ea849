/** The Fragment class of src/model/fragment.js: an object whose `save` and
    `setData` update its fields and then write to the two stores, and the static
    lookups `byId`, `byUser` and `delete` over the same stores. Every error the
    methods catch is thrown again as `new Error(err)`, modelled as Rewrapped. */
module Fragments {
  import opened Wrappers
  import opened Js
  import opened TypeRegistry
  import opened Records
  import opened Storage

  class Fragment {
    var id: Value
    var ownerId: Value
    var created: Value
    var updated: Value
    var contentType: string
    var size: Value

    /** The fields as the metadata record writeFragment(this) stores. */
    function Record(): FragmentRecord
      reads this
    {
      FragmentRecord(id, ownerId, created, updated, contentType, size)
    }

    ghost predicate Valid()
      reads this
    {
      ValidRecord(Record())
    }

    function Key(): Storage.Key
      reads this
    {
      KeyOf(Record())
    }

    /** Sets the fields from a record that passed the constructor's checks. */
    constructor FromRecord(rec: FragmentRecord)
      ensures Record() == rec
    {
      id, ownerId, created, updated, contentType, size :=
        rec.id, rec.ownerId, rec.created, rec.updated, rec.contentType, rec.size;
    }

    /** new Fragment(input): throws as Construct says, and otherwise holds Construct's record. */
    static method New(input: FragmentInput, gen: Fresh) returns (r: Result<Fragment, Thrown>)
      ensures r.Success? <==> Construct(input, gen).Success?
      ensures r.Failure? ==> r.error == Construct(input, gen).error
      ensures r.Success? ==> fresh(r.value) && r.value.Record() == Construct(input, gen).value && r.value.Valid()
    {
      var size := if input.size == Undefined then Num(0.0) else input.size;
      if !Truthy(input.ownerId) {
        return Failure(Error("ownerId is required"));
      }
      if Truthy(input.contentType) {
        if !input.contentType.Str? {
          return Failure(TypeError);
        }
        if !IsSupportedType(input.contentType.s) {
          return Failure(Error("invalid types throw"));
        }
      } else {
        return Failure(Raised("type is required"));
      }
      if Truthy(size) {
        if !size.Num? {
          return Failure(Error("size must be a number"));
        }
        if size.n < 0.0 {
          return Failure(Error("size cannot be negative"));
        }
      }
      var rec := FragmentRecord(
        if Truthy(input.id) then input.id else Str(gen.uuid),
        input.ownerId,
        if Truthy(input.created) then input.created else Str(gen.createdAt),
        if Truthy(input.updated) then input.updated else Str(gen.updatedAt),
        input.contentType.s,
        size);
      var f := new Fragment.FromRecord(rec);
      return Success(f);
    }

    /** save(): refreshes `updated` and writes the metadata; the bytes are untouched. */
    method Save(db: Store, now: NonEmptyString)
      requires Valid() && db.Valid()
      modifies this, db
      ensures Record() == old(Record()).(updated := Str(now))
      ensures db.metadata == old(db.metadata)[Key() := Record()]
      ensures db.data == old(db.data)
      ensures db.writes == old(db.writes) + [MetadataWrite(Key())]
      ensures Valid() && db.Valid()
    {
      updated := Str(now);
      db.WriteFragment(Record());
    }

    /** setData(value): a non-Buffer is rejected and nothing changes. Otherwise `size`
        becomes the byte length and `updated` the time of the save, the metadata is
        written first and the bytes second, and the byte store then holds the data. */
    method SetData(db: Store, value: Value, setAt: NonEmptyString, now: NonEmptyString) returns (r: Outcome<Thrown>)
      requires Valid() && db.Valid()
      modifies this, db
      ensures !value.Buffer? ==>
        && r == Fail(Rewrapped(Error("Given data is not a Buffer")))
        && Record() == old(Record())
        && db.metadata == old(db.metadata) && db.data == old(db.data) && db.writes == old(db.writes)
      ensures value.Buffer? ==>
        && r == Pass
        && Record() == old(Record()).(updated := Str(now), size := Num(|value.bytes| as real))
        && db.metadata == old(db.metadata)[Key() := Record()]
        && db.data == old(db.data)[Key() := value.bytes]
        && db.writes == old(db.writes) + [MetadataWrite(Key()), DataWrite(Key())]
        && db.ReadFragmentData(ownerId, id) == Some(value.bytes)
      ensures Valid() && db.Valid()
    {
      if !value.Buffer? {
        return Fail(Rewrapped(Error("Given data is not a Buffer")));
      }
      updated := Date(setAt);
      size := Num(|value.bytes| as real);
      Save(db, now);
      db.WriteFragmentData(ownerId, id, value.bytes);
      return Pass;
    }

    /** getData(): the stored bytes, or undefined when there are none. */
    method GetData(db: Store) returns (r: Option<seq<byte>>)
      ensures r.Some? <==> Key() in db.data
      ensures r.Some? ==> r.value == db.data[Key()]
    {
      r := db.ReadFragmentData(ownerId, id);
    }

    /** byId(ownerId, id): fails when the store has no record, and otherwise rebuilds
        the fragment from the stored record, which in a valid store is that record. */
    static method ById(db: Store, ownerId: Value, id: Value, gen: Fresh) returns (r: Result<Fragment, Thrown>)
      ensures db.ReadFragment(ownerId, id).None? ==> r == Failure(Rewrapped(Error("Fragment was not found")))
      ensures db.Valid() && db.ReadFragment(ownerId, id).Some? ==>
        r.Success? && fresh(r.value) && r.value.Record() == db.metadata[Storage.Key(ownerId, id)] && r.value.Valid()
    {
      var found := db.ReadFragment(ownerId, id);
      if found.None? {
        return Failure(Rewrapped(Error("Fragment was not found")));
      }
      if db.Valid() {
        ReconstructRoundTrip(found.value, gen);
      }
      var built := New(ToInput(found.value), gen);
      if built.Failure? {
        return Failure(Rewrapped(built.error));
      }
      return Success(built.value);
    }

    /** delete(ownerId, id): removes both records; a store failure is rethrown. */
    static method Delete(db: Store, ownerId: Value, id: Value) returns (r: Outcome<Thrown>)
      requires db.Valid()
      modifies db
      ensures r == Pass <==> old(db.ReadFragment(ownerId, id)).Some?
      ensures r.Fail? ==>
        && r.error == Rewrapped(StoreError)
        && db.metadata == old(db.metadata) && db.data == old(db.data) && db.writes == old(db.writes)
      ensures r == Pass ==>
        && db.metadata == old(db.metadata) - {Storage.Key(ownerId, id)}
        && db.data == old(db.data) - {Storage.Key(ownerId, id)}
        && db.writes == old(db.writes) + [Removal(Storage.Key(ownerId, id))]
      ensures db.ReadFragment(ownerId, id).None? && db.ReadFragmentData(ownerId, id).None?
      ensures db.Valid()
    {
      var outcome := db.DeleteFragment(ownerId, id);
      if outcome.Fail? {
        return Fail(Rewrapped(outcome.error));
      }
      return Pass;
    }

    /** byUser(ownerId, expand): the owner's ids, or (in a valid store) exactly the
        owner's stored records when expanding. */
    static method ByUser(db: Store, ownerId: Value, expand: bool) returns (r: Listing)
      ensures r.Ids? <==> !expand
      ensures r.Ids? ==> forall id :: id in r.ids <==> db.ReadFragment(ownerId, id).Some?
      ensures db.Valid() && r.Records? ==> forall rec :: rec in r.records <==>
        rec.ownerId == ownerId && db.ReadFragment(rec.ownerId, rec.id) == Some(rec)
    {
      r := db.ListFragments(ownerId, expand);
      if r.Records? && db.Valid() {
        forall rec ensures rec in r.records <==> rec.ownerId == ownerId && db.ReadFragment(rec.ownerId, rec.id) == Some(rec) {
          if rec in r.records {
            var k :| k in db.metadata && k.ownerId == ownerId && db.metadata[k] == rec;
            assert KeyOf(rec) == k;
          }
          if rec.ownerId == ownerId && db.ReadFragment(rec.ownerId, rec.id) == Some(rec) {
            assert KeyOf(rec) in db.metadata && db.metadata[KeyOf(rec)] == rec;
          }
        }
      }
    }
  }
}
