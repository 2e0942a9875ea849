/** The `./data` module the Fragment class calls (readFragment, writeFragment,
    readFragmentData, writeFragmentData, listFragments, deleteFragment), as two
    maps keyed by (ownerId, id): fragment metadata and fragment bytes. */
module Storage {
  import opened Wrappers
  import opened Js
  import opened Records

  datatype Key = Key(ownerId: Value, id: Value)

  /** One store update, in the order the writes were issued. */
  datatype Write = MetadataWrite(key: Key) | DataWrite(key: Key) | Removal(key: Key)

  /** listFragments(ownerId, expand): the ids, or the full records when expanding.
      The order of the list is left out, so it is a set. */
  datatype Listing = Ids(ids: set<Value>) | Records(records: set<FragmentRecord>)

  function KeyOf(rec: FragmentRecord): Key {
    Key(rec.ownerId, rec.id)
  }

  class Store {
    var metadata: map<Key, FragmentRecord>
    var data: map<Key, seq<byte>>
    /** Every write so far, oldest first; states the order of the two stores' updates. */
    ghost var writes: seq<Write>

    /** Each record sits under its own key and is a valid fragment, and there are
        no bytes without metadata. */
    ghost predicate Valid()
      reads this
    {
      && (forall k | k in metadata :: KeyOf(metadata[k]) == k && ValidRecord(metadata[k]))
      && data.Keys <= metadata.Keys
    }

    constructor()
      ensures metadata == map[] && data == map[] && writes == []
      ensures Valid()
    {
      metadata, data, writes := map[], map[], [];
    }

    /** readFragment: the record, or undefined. In a valid store a found record is a
        valid fragment of that owner with that id. */
    function ReadFragment(ownerId: Value, id: Value): (r: Option<FragmentRecord>)
      reads this
      ensures r.None? <==> Key(ownerId, id) !in metadata
      ensures Valid() && r.Some? ==> KeyOf(r.value) == Key(ownerId, id) && ValidRecord(r.value)
    {
      if Key(ownerId, id) in metadata then Some(metadata[Key(ownerId, id)]) else None
    }

    /** readFragmentData: the bytes, or undefined. In a valid store bytes are found
        only where a record is. */
    function ReadFragmentData(ownerId: Value, id: Value): (r: Option<seq<byte>>)
      reads this
      ensures r.None? <==> Key(ownerId, id) !in data
      ensures Valid() && r.Some? ==> ReadFragment(ownerId, id).Some?
    {
      if Key(ownerId, id) in data then Some(data[Key(ownerId, id)]) else None
    }

    /** writeFragment: stores the record under its own owner and id. */
    method WriteFragment(rec: FragmentRecord)
      modifies this
      ensures metadata == old(metadata)[KeyOf(rec) := rec]
      ensures data == old(data)
      ensures writes == old(writes) + [MetadataWrite(KeyOf(rec))]
    {
      metadata := metadata[KeyOf(rec) := rec];
      writes := writes + [MetadataWrite(KeyOf(rec))];
    }

    /** writeFragmentData: stores the bytes under (ownerId, id). */
    method WriteFragmentData(ownerId: Value, id: Value, bytes: seq<byte>)
      modifies this
      ensures data == old(data)[Key(ownerId, id) := bytes]
      ensures metadata == old(metadata)
      ensures writes == old(writes) + [DataWrite(Key(ownerId, id))]
    {
      data := data[Key(ownerId, id) := bytes];
      writes := writes + [DataWrite(Key(ownerId, id))];
    }

    /** listFragments for one owner. */
    function ListFragments(ownerId: Value, expand: bool): (r: Listing)
      reads this
      ensures r.Ids? <==> !expand
      ensures r.Ids? ==> forall id :: id in r.ids <==> Key(ownerId, id) in metadata
      ensures r.Records? ==> forall rec :: rec in r.records <==>
        exists k :: k in metadata && k.ownerId == ownerId && metadata[k] == rec
    {
      if expand then Records(set k | k in metadata && k.ownerId == ownerId :: metadata[k])
      else Ids(set k | k in metadata && k.ownerId == ownerId :: k.id)
    }

    /** deleteFragment: removes both the metadata and the bytes, and fails when the
        metadata record does not exist. */
    method DeleteFragment(ownerId: Value, id: Value) returns (r: Outcome<Thrown>)
      modifies this
      ensures Key(ownerId, id) !in old(metadata) ==>
        r == Fail(StoreError) && metadata == old(metadata) && data == old(data) && writes == old(writes)
      ensures Key(ownerId, id) in old(metadata) ==>
        && r == Pass
        && metadata == old(metadata) - {Key(ownerId, id)}
        && data == old(data) - {Key(ownerId, id)}
        && writes == old(writes) + [Removal(Key(ownerId, id))]
    {
      var k := Key(ownerId, id);
      if k !in metadata {
        return Fail(StoreError);
      }
      metadata := metadata - {k};
      data := data - {k};
      writes := writes + [Removal(k)];
      return Pass;
    }
  }

  /** Writing bytes and then reading them under the same key returns exactly those bytes,
      and leaves every other key's bytes as they were. */
  method WriteThenRead(db: Store, ownerId: Value, id: Value, bytes: seq<byte>) returns (r: Option<seq<byte>>)
    modifies db
    ensures r == Some(bytes)
    ensures forall k :: k in old(db.data) && k != Key(ownerId, id) ==> k in db.data && db.data[k] == old(db.data)[k]
  {
    db.WriteFragmentData(ownerId, id, bytes);
    r := db.ReadFragmentData(ownerId, id);
  }
}
