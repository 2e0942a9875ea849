/** The fixed type tables of src/model/fragment.js: the supported-type list of
    `isSupportedType` and the conversion table of the `formats` getter. */
module TypeRegistry {
  import opened Wrappers
  import opened Js
  import opened ContentTypes

  /** The twelve Content-Type strings `isSupportedType` knows. */
  const ValidTypes: seq<string> := [
    "text/plain",
    "text/markdown",
    "text/html",
    "text/csv",
    "application/json",
    "application/yaml",
    "application/x-yaml",
    "image/png",
    "image/jpeg",
    "image/webp",
    "image/gif",
    "image/avif"
  ]

  /** The list every image type can be converted to, in the order the getter returns it. */
  const ImageFormats: seq<string> := ["image/gif", "image/png", "image/jpeg", "image/webp", "image/avif"]

  /** String.prototype.includes: `needle` occurs somewhere in `hay`. */
  function Contains(hay: string, needle: string): bool
    decreases |hay|
  {
    if |needle| > |hay| then false
    else if hay[..|needle|] == needle then true
    else Contains(hay[1..], needle)
  }

  /** `needle` occurs in `hay` at position `k`. */
  ghost predicate OccursAt(needle: string, hay: string, k: int) {
    0 <= k <= |hay| - |needle| && hay[k..k + |needle|] == needle
  }

  /** `needle` occurs in `hay` starting at some position. */
  ghost predicate OccursIn(needle: string, hay: string) {
    exists k :: OccursAt(needle, hay, k)
  }

  /** A slice of the tail is the slice of the whole shifted by one. */
  lemma SliceOfTail(hay: string, k: nat, n: nat)
    requires |hay| > 0 && k + n <= |hay| - 1
    ensures hay[1..][k..k + n] == hay[k + 1..k + 1 + n]
  {
    var u, v := hay[1..][k..k + n], hay[k + 1..k + 1 + n];
    assert forall i :: 0 <= i < n ==> u[i] == v[i];
  }

  lemma {:induction false} ContainsIffOccurs(hay: string, needle: string)
    ensures Contains(hay, needle) <==> OccursIn(needle, hay)
    decreases |hay|
  {
    if |needle| > |hay| {
    } else if hay[..|needle|] == needle {
      assert OccursAt(needle, hay, 0);
    } else {
      assert !OccursAt(needle, hay, 0) by {
        assert hay[0..0 + |needle|] == hay[..|needle|];
      }
      ContainsIffOccurs(hay[1..], needle);
      if OccursIn(needle, hay[1..]) {
        var k :| OccursAt(needle, hay[1..], k);
        SliceOfTail(hay, k, |needle|);
        assert OccursAt(needle, hay, k + 1);
      }
      if OccursIn(needle, hay) {
        var k :| OccursAt(needle, hay, k);
        SliceOfTail(hay, k - 1, |needle|);
        assert OccursAt(needle, hay[1..], k - 1);
      }
    }
  }

  /** Some listed type occurs in `value`, stated with positions rather than a scan. */
  ghost predicate SomeTypeOccurs(value: string) {
    exists t :: t in ValidTypes && OccursIn(t, value)
  }

  /** `isSupportedType`: some listed type is a substring of `value`. The match is by
      substring, not by equality of the base type. */
  predicate IsSupportedType(value: string): (r: bool)
    ensures r <==> SomeTypeOccurs(value)
  {
    SomeTypeIsContained(value);
    exists i | 0 <= i < |ValidTypes| :: Contains(value, ValidTypes[i])
  }

  lemma SomeTypeIsContained(value: string)
    ensures (exists i | 0 <= i < |ValidTypes| :: Contains(value, ValidTypes[i])) <==> SomeTypeOccurs(value)
  {
    if exists i | 0 <= i < |ValidTypes| :: Contains(value, ValidTypes[i]) {
      var i :| 0 <= i < |ValidTypes| && Contains(value, ValidTypes[i]);
      ContainsIffOccurs(value, ValidTypes[i]);
    }
    if SomeTypeOccurs(value) {
      var t :| t in ValidTypes && OccursIn(t, value);
      var i :| 0 <= i < |ValidTypes| && ValidTypes[i] == t;
      ContainsIffOccurs(value, t);
    }
  }

  /** Anything that starts with a listed type is accepted, whatever follows. */
  lemma SupportedWithAnySuffix(t: string, suffix: string)
    requires t in ValidTypes
    ensures IsSupportedType(t + suffix)
  {
    var i :| 0 <= i < |ValidTypes| && ValidTypes[i] == t;
    assert (t + suffix)[..|t|] == t;
    assert Contains(t + suffix, ValidTypes[i]);
  }

  /** Every listed type is supported. */
  lemma ListedTypesSupported(t: string)
    requires t in ValidTypes
    ensures IsSupportedType(t)
  {
    SupportedWithAnySuffix(t, "");
    assert t + "" == t;
  }

  /** The table of the `formats` getter, keyed by mime type; None is its `null`. */
  function FormatsFor(mime: string): (r: Option<seq<string>>)
    ensures r.Some? <==> mime in ValidTypes && mime != "application/x-yaml"
  {
    if mime == "text/plain" then Some(["text/plain"])
    else if mime == "text/markdown" then Some(["text/markdown", "text/html", "text/plain"])
    else if mime == "text/html" then Some(["text/html", "text/plain"])
    else if mime == "text/csv" then Some(["text/csv", "text/plain", "application/json"])
    else if mime == "application/json" then
      Some(["application/json", "text/plain", "application/yaml", "application/x-yaml"])
    else if mime == "application/yaml" then Some(["application/yaml", "text/plain"])
    else if mime in ImageFormats then Some(ImageFormats)
    else None
  }

  /** The `formats` getter: the table entry of the fragment's mime type.
      It throws when `mimeType` does. */
  function Formats(contentType: string): (r: Result<Option<seq<string>>, Thrown>)
    ensures r.Success? <==> MimeType(contentType).Success?
    ensures r.Success? ==> r.value == FormatsFor(MimeType(contentType).value)
  {
    match MimeType(contentType)
    case Success(m) => Success(FormatsFor(m))
    case Failure(e) => Failure(e)
  }

  /** Identity conversion is always allowed, and every output is itself a listed type. */
  lemma FormatsIncludeSelfAndStayListed(mime: string)
    requires FormatsFor(mime).Some?
    ensures mime in FormatsFor(mime).value
    ensures forall o :: o in FormatsFor(mime).value ==> o in ValidTypes && IsSupportedType(o)
  {
    forall o | o in FormatsFor(mime).value ensures o in ValidTypes && IsSupportedType(o) {
      ListedTypesSupported(o);
    }
  }

  /** The five image types share one five-element list. */
  lemma ImageTypesShareFormats(mime: string)
    requires mime in ImageFormats
    ensures FormatsFor(mime) == Some(ImageFormats) && |ImageFormats| == 5
  {
  }

  /** application/x-yaml is supported but has no conversions. */
  lemma XYamlHasNoFormats()
    ensures IsSupportedType("application/x-yaml")
    ensures FormatsFor("application/x-yaml") == None
  {
    ListedTypesSupported("application/x-yaml");
  }

  /** Lower-case letters and '-' around a single '/': a lower-case media type. */
  lemma SlashBetweenLetters(t: string, i: nat)
    requires 0 < i < |t| - 1 && t[i] == '/'
    requires forall k :: 0 <= k < |t| && k != i ==> 'a' <= t[k] <= 'z' || t[k] == '-'
    ensures IsMediaType(t) && IsLowerCase(t)
  {
    var head, tail := t[..i], t[i + 1..];
    assert forall k :: 0 <= k < |head| ==> head[k] == t[k];
    assert forall k :: 0 <= k < |tail| ==> tail[k] == t[i + 1 + k];
    assert AllTokenChars(head) && AllTokenChars(tail);
  }

  lemma TextTypesAreMediaTypes(t: string)
    requires t in ValidTypes[..4]
    ensures IsMediaType(t) && IsLowerCase(t)
  {
    SlashBetweenLetters(t, 4);
  }

  lemma ApplicationTypesAreMediaTypes(t: string)
    requires t in ValidTypes[4..7]
    ensures IsMediaType(t) && IsLowerCase(t)
  {
    SlashBetweenLetters(t, 11);
  }

  lemma ImageTypesAreMediaTypes(t: string)
    requires t in ValidTypes[7..]
    ensures IsMediaType(t) && IsLowerCase(t)
  {
    SlashBetweenLetters(t, 5);
  }

  /** Every listed type is a lower-case media type. */
  lemma ListedTypeIsMediaType(t: string)
    requires t in ValidTypes
    ensures IsMediaType(t) && IsLowerCase(t)
  {
    var i :| 0 <= i < |ValidTypes| && ValidTypes[i] == t;
    if i < 4 {
      assert ValidTypes[..4][i] == t;
      TextTypesAreMediaTypes(t);
    } else if i < 7 {
      assert ValidTypes[4..7][i - 4] == t;
      ApplicationTypesAreMediaTypes(t);
    } else {
      assert ValidTypes[7..][i - 7] == t;
      ImageTypesAreMediaTypes(t);
    }
  }

  /** Every listed type is its own mime type, bare or with parameters. */
  lemma ListedTypesAreMimeTypes(t: string, params: string)
    requires t in ValidTypes
    ensures MimeType(t) == Success(t) && MimeType(t + ";" + params) == Success(t)
  {
    ListedTypeIsMediaType(t);
    MimeTypeDropsParameters(t, params);
  }

  /** A fragment's formats depend only on its base type, not on its parameters. */
  lemma FormatsIgnoreParameters(t: string, params: string)
    requires t in ValidTypes
    ensures Formats(t) == Formats(t + ";" + params) == Success(FormatsFor(t))
  {
    ListedTypesAreMimeTypes(t, params);
  }
}
