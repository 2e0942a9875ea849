/** The validation and defaulting of the Fragment constructor
    (src/model/fragment.js), stated on values: what a fragment holds, and which
    inputs the constructor accepts. */
module Records {
  import opened Wrappers
  import opened Js
  import opened TypeRegistry

  /** The constructor's argument; a property the caller leaves out is Undefined. */
  datatype FragmentInput = FragmentInput(
    id: Value, ownerId: Value, created: Value, updated: Value, contentType: Value, size: Value)

  /** A fragment's metadata, as the metadata store holds it. */
  datatype FragmentRecord = FragmentRecord(
    id: Value, ownerId: Value, created: Value, updated: Value, contentType: string, size: Value)

  /** The values the constructor would generate: crypto.randomUUID() and the
      two calls of new Date().toISOString(). */
  datatype Fresh = Fresh(uuid: NonEmptyString, createdAt: NonEmptyString, updatedAt: NonEmptyString)

  /** The `size = 0` default of the destructuring parameter: it replaces only undefined. */
  function DefaultSize(size: Value): Value {
    if size == Undefined then Num(0.0) else size
  }

  /** A size passes the checks: it is falsy, or it is a non-negative number. */
  predicate SizeAccepted(size: Value) {
    !Truthy(size) || (size.Num? && size.n >= 0.0)
  }

  /** What every constructed fragment satisfies. */
  predicate ValidRecord(rec: FragmentRecord) {
    && Truthy(rec.id) && Truthy(rec.ownerId) && Truthy(rec.created) && Truthy(rec.updated)
    && rec.contentType != "" && IsSupportedType(rec.contentType)
    && rec.size != Undefined && SizeAccepted(rec.size)
  }

  /** Keeps a given value, or takes the generated one when the given one is falsy (`x || fresh`). */
  function OrElse(given: Value, generated: string): Value {
    if Truthy(given) then given else Str(generated)
  }

  /** new Fragment(input): the checks in the constructor's order, then the fields. */
  function Construct(input: FragmentInput, gen: Fresh): (r: Result<FragmentRecord, Thrown>)
    ensures r.Success? ==> ValidRecord(r.value)
  {
    var size := DefaultSize(input.size);
    if !Truthy(input.ownerId) then Failure(Error("ownerId is required"))
    else if !Truthy(input.contentType) then Failure(Raised("type is required"))
    else if !input.contentType.Str? then Failure(TypeError)  // value.includes is not a function
    else if !IsSupportedType(input.contentType.s) then Failure(Error("invalid types throw"))
    else if Truthy(size) && !size.Num? then Failure(Error("size must be a number"))
    else if Truthy(size) && size.n < 0.0 then Failure(Error("size cannot be negative"))
    else Success(FragmentRecord(
      OrElse(input.id, gen.uuid),
      input.ownerId,
      OrElse(input.created, gen.createdAt),
      OrElse(input.updated, gen.updatedAt),
      input.contentType.s,
      size))
  }

  /** The plain object a record is read back as, ready to be passed to the constructor. */
  function ToInput(rec: FragmentRecord): FragmentInput {
    FragmentInput(rec.id, rec.ownerId, rec.created, rec.updated, Str(rec.contentType), rec.size)
  }

  /** Construction fails exactly when one of the checks does, with the first failing check's error. */
  lemma ConstructFailures(input: FragmentInput, gen: Fresh)
    ensures !Truthy(input.ownerId) ==> Construct(input, gen) == Failure(Error("ownerId is required"))
    ensures Truthy(input.ownerId) && !Truthy(input.contentType) ==>
      Construct(input, gen) == Failure(Raised("type is required"))
    ensures (Truthy(input.ownerId) && input.contentType.Str? && input.contentType.s != ""
             && !IsSupportedType(input.contentType.s))
            ==> Construct(input, gen) == Failure(Error("invalid types throw"))
    ensures Construct(input, gen).Success? <==>
      && Truthy(input.ownerId)
      && input.contentType.Str? && input.contentType.s != "" && IsSupportedType(input.contentType.s)
      && SizeAccepted(DefaultSize(input.size))
  {
  }

  /** A successful construction keeps the owner, the type verbatim and the given size
      (0 when left out); it keeps a given id and timestamps and generates missing ones. */
  lemma ConstructKeepsGivenFields(input: FragmentInput, gen: Fresh)
    requires Construct(input, gen).Success?
    ensures var rec := Construct(input, gen).value;
      && rec.ownerId == input.ownerId
      && Str(rec.contentType) == input.contentType
      && (input.size == Undefined ==> rec.size == Num(0.0))
      && (input.size != Undefined ==> rec.size == input.size)
      && (Truthy(input.id) ==> rec.id == input.id)
      && (!Truthy(input.id) ==> rec.id == Str(gen.uuid))
      && (Truthy(input.created) ==> rec.created == input.created)
      && (!Truthy(input.created) ==> rec.created == Str(gen.createdAt))
      && (Truthy(input.updated) ==> rec.updated == input.updated)
      && (!Truthy(input.updated) ==> rec.updated == Str(gen.updatedAt))
  {
  }

  /** Rebuilding a valid record from its stored form gives the same record back,
      whatever values the constructor could generate: nothing is regenerated. */
  lemma ReconstructRoundTrip(rec: FragmentRecord, gen: Fresh)
    requires ValidRecord(rec)
    ensures Construct(ToInput(rec), gen) == Success(rec)
  {
  }

  /** Hence a constructed fragment survives being stored and read back. */
  lemma ConstructedSurvivesReconstruction(input: FragmentInput, gen: Fresh, later: Fresh)
    requires Construct(input, gen).Success?
    ensures Construct(ToInput(Construct(input, gen).value), later) == Construct(input, gen)
  {
    ReconstructRoundTrip(Construct(input, gen).value, later);
  }
}
