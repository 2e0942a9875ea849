/** The GET /fragments/:id handler of src/routes/api/get-by-id.js: the split of
    the route parameter into an id and an extension (Node's path.basename and
    path.extname), the handler's own convertData, and the choice between serving
    the raw bytes, converting them, answering 415 and answering 404. */
module GetById {
  import opened Wrappers
  import opened Js
  import opened ContentTypes
  import opened TypeRegistry
  import opened Conversion
  import opened Records
  import opened Storage
  import opened Fragments

  // ---------------------------------------------------------------- path names

  function StripTrailingSlashes(p: string): string {
    if |p| > 0 && p[|p| - 1] == '/' then StripTrailingSlashes(p[..|p| - 1]) else p
  }

  /** String.prototype.lastIndexOf for one character; None stands for -1. */
  function LastIndexOf(s: string, c: char): (r: Option<nat>)
    ensures r.Some? ==> r.value < |s|
  {
    if |s| == 0 then None
    else if s[|s| - 1] == c then Some(|s| - 1)
    else LastIndexOf(s[..|s| - 1], c)
  }

  lemma {:induction false} LastIndexOfFindsLast(s: string, c: char)
    ensures LastIndexOf(s, c).Some? ==> s[LastIndexOf(s, c).value] == c && c !in s[LastIndexOf(s, c).value + 1..]
    ensures LastIndexOf(s, c).None? <==> c !in s
  {
    if |s| > 0 && s[|s| - 1] != c {
      var init := s[..|s| - 1];
      LastIndexOfFindsLast(init, c);
      assert s == init + [s[|s| - 1]];
      if LastIndexOf(init, c).Some? {
        var i := LastIndexOf(init, c).value;
        assert s[i + 1..] == init[i + 1..] + [s[|s| - 1]];
      }
    }
  }

  /** The last path component, trailing slashes ignored: path.basename(p). */
  function LastComponent(p: string): string {
    var t := StripTrailingSlashes(p);
    match LastIndexOf(t, '/')
    case None => t
    case Some(i) => t[i + 1..]
  }

  /** path.extname on one component: from the last '.' on, unless there is no dot,
      the only place for it is the first character, or the component is "..". */
  function ExtOf(c: string): (r: string)
    ensures r == "" || (r[0] == '.' && '.' !in r[1..] && |r| < |c| && c[|c| - |r|..] == r)
  {
    LastIndexOfFindsLast(c, '.');
    match LastIndexOf(c, '.')
    case None => ""
    case Some(d) =>
      if d == 0 || c == ".." then ""
      else assert c[d..][1..] == c[d + 1..]; c[d..]
  }

  /** The handler's `id` and `extension`:
      path.basename(url, path.extname(url)) and path.extname(url).slice(1).
      The extension holds no dot, and a non-empty one rebuilds the last path
      component with the id. */
  function SplitParam(param: string): (r: (string, string))
    ensures '.' !in r.1
    ensures r.1 != "" ==> r.0 + "." + r.1 == LastComponent(param)
  {
    var c := LastComponent(param);
    var e := ExtOf(c);
    if e == "" then (c, "")
    else
      var n := |c| - |e|;
      var id, ext := c[..n], e[1..];
      assert e == "." + ext;
      assert c == id + e;
      (id, ext)
  }

  /** The last `c` in a + [c] + b is the one between them when b holds none. */
  lemma {:induction false} LastIndexOfBefore(a: string, c: char, b: string)
    requires c !in b
    ensures LastIndexOf(a + [c] + b, c) == Some(|a|)
    decreases |b|
  {
    var s := a + [c] + b;
    if b != [] {
      assert s[|s| - 1] == b[|b| - 1];
      assert s[..|s| - 1] == a + [c] + b[..|b| - 1];
      LastIndexOfBefore(a, c, b[..|b| - 1]);
    }
  }

  /** A parameter with no '/' and no trailing slash is its own last component. */
  lemma NoSlashIsLastComponent(p: string)
    requires '/' !in p
    ensures LastComponent(p) == p
  {
    if |p| > 0 {
      assert p[|p| - 1] != '/';
    }
    assert StripTrailingSlashes(p) == p;
    LastIndexOfFindsLast(p, '/');
  }

  /** A parameter without '/' splits at its last dot into the name before it and the
      extension after it. */
  lemma SplitsAtLastDot(name: string, ext: string)
    requires '/' !in name && '/' !in ext && '.' !in ext
    requires name != "" && !(name == "." && ext == "")
    ensures SplitParam(name + "." + ext) == (name, ext)
  {
    var p := name + "." + ext;
    assert '/' !in p by {
      forall k | 0 <= k < |p| ensures p[k] != '/' {
        if k < |name| { assert p[k] == name[k]; }
        else if k > |name| { assert p[k] == ext[k - |name| - 1]; }
      }
    }
    NoSlashIsLastComponent(p);
    assert p == name + ['.'] + ext;
    LastIndexOfBefore(name, '.', ext);
    assert p[|name|..] == "." + ext;
    assert p[..|name|] == name;
  }

  /** A parameter with neither '/' nor '.' is all id and no extension. */
  lemma NoDotNoExtension(param: string)
    requires '/' !in param && '.' !in param
    ensures SplitParam(param) == (param, "")
  {
    NoSlashIsLastComponent(param);
    LastIndexOfFindsLast(param, '.');
    assert param[..|param| - 0] == param;
  }

  /** A leading dot is part of the name: ".rest" is all id and no extension. */
  lemma LeadingDotNoExtension(rest: string)
    requires '/' !in rest && '.' !in rest
    ensures SplitParam("." + rest) == ("." + rest, "")
  {
    var p := "." + rest;
    assert '/' !in p by {
      forall k | 0 <= k < |p| ensures p[k] != '/' {
        if k > 0 { assert p[k] == rest[k - 1]; }
      }
    }
    NoSlashIsLastComponent(p);
    assert p == [] + ['.'] + rest;
    LastIndexOfBefore([], '.', rest);
  }

  /** A trailing dot gives the extension "." and so an empty `extension`, while the id
      loses the dot: "abc." is looked up as "abc" and served raw. */
  lemma TrailingDotDropped(name: string)
    requires '/' !in name && '.' !in name && name != ""
    ensures SplitParam(name + ".") == (name, "")
  {
    SplitsAtLastDot(name, "");
    assert name + "." + "" == name + ".";
  }

  // ---------------------------------------------------------- local convertData

  /** The handler's own convertData(data, from, to). It throws only JSON.parse's error
      on json to txt, and it never re-encodes an image. */
  function LocalConvertData(lib: Libraries, data: seq<byte>, from: string, to: string): (r: Result<Term, Thrown>)
    ensures r.Failure? ==> r.error == SyntaxError && from == "application/json" && to == "txt"
    ensures r.Success? ==> !r.value.ImageEncoded?
  {
    var text := Decoded(data);
    if from == "text/markdown" then
      if to == "txt" then Success(HtmlAsText(MarkdownRendered(text), 150))
      else if to == "html" then Success(MarkdownRendered(text))
      else Success(text)
    else if from == "text/html" then
      if to == "txt" then Success(HtmlAsText(text, 130)) else Success(text)
    else if from == "application/json" then
      if to == "txt" then ParseJson(lib, data) else Success(text)
    else Success(text)
  }

  /** The pairs the local convertData transforms, written out on their own. */
  ghost predicate LocalTransforms(from: string, to: string) {
    || (from == "text/markdown" && (to == "txt" || to == "html"))
    || (from == "text/html" && to == "txt")
    || (from == "application/json" && to == "txt")
  }

  /** Only markdown to txt or html, html to txt and json to txt are transformed;
      every other pair returns the data as a string. json to txt fails only on text
      JSON.parse rejects, and returns the parsed value, not a string. */
  lemma LocalPassThroughExactly(lib: Libraries, data: seq<byte>, from: string, to: string)
    ensures LocalConvertData(lib, data, from, to) == Success(Decoded(data)) <==> !LocalTransforms(from, to)
    ensures LocalConvertData(lib, data, from, to).Failure? <==>
      from == "application/json" && to == "txt" && !lib.jsonParses(data)
    ensures from == "application/json" && to == "txt" && lib.jsonParses(data) ==>
      LocalConvertData(lib, data, from, to) == Success(JsonParsed(Decoded(data)))
  {
  }

  /** The two convertData agree on markdown and html sources. */
  lemma LocalAgreesOnMarkup(lib: Libraries, data: seq<byte>, from: string, to: string)
    requires from == "text/markdown" || from == "text/html"
    ensures LocalConvertData(lib, data, from, to) == ConvertData(lib, data, from, to)
  {
  }

  /** They differ on json to txt (no pretty-printing), on csv to json (no parse) and on
      every image target (no re-encoding). */
  lemma LocalDiffersFromModel(lib: Libraries, data: seq<byte>, image: string, target: string)
    requires image in ImageTypes && target in ["png", "jpg", "webp", "gif", "avif"]
    ensures lib.jsonParses(data) ==>
      LocalConvertData(lib, data, "application/json", "txt") != ConvertData(lib, data, "application/json", "txt")
    ensures LocalConvertData(lib, data, "text/csv", "json") == Success(Decoded(data)) != ConvertData(lib, data, "text/csv", "json")
    ensures LocalConvertData(lib, data, image, target) == Success(Decoded(data)) != ConvertData(lib, data, image, target)
  {
  }

  // ------------------------------------------------------------- negotiation

  datatype Body =
    | Raw(bytes: Option<seq<byte>>)     // res.send(data); data may be undefined
    | Converted(term: Term)             // res.send(convertedData)
    | Problem(code: nat, error: Thrown) // createErrorResponse(code, message)

  datatype Response = Response(status: nat, contentType: Option<string>, body: Body)

  function NotFound(e: Thrown): Response {
    Response(404, None, Problem(404, e))
  }

  const InvalidExtension: Response := Response(415, None, Problem(415, Error("Invalid extension")))

  /** What the handler answers once the fragment and its data are found. `lookup` is
      mimeTypes.lookup; an extension it does not know gives false, which no formats
      list includes. */
  function Respond(rec: FragmentRecord, data: Option<seq<byte>>, extension: string,
                   lookup: map<string, string>, lib: Libraries): (r: Response)
    ensures r.status in {200, 404, 415}
    ensures r.status == 200 <==> r.body.Raw? || r.body.Converted?
  {
    if extension == "" then Response(200, Some(rec.contentType), Raw(data))
    else match Formats(rec.contentType)
      case Failure(e) => NotFound(e)                      // mimeType throws
      case Success(None) => NotFound(TypeError)           // null.includes
      case Success(Some(formats)) =>
        if extension in lookup && lookup[extension] in formats then
          if data.None? then NotFound(TypeError)          // Buffer.from(undefined)
          else match LocalConvertData(lib, data.value, MimeType(rec.contentType).value, extension)
            case Failure(e) => NotFound(e)
            case Success(t) => Response(200, Some(lookup[extension]), Converted(t))
        else InvalidExtension
  }

  /** The handler: split the parameter, look the fragment and its data up, then answer.
      Any failure of byId gives 404. */
  method Handle(db: Store, user: Value, param: string, lookup: map<string, string>, lib: Libraries, gen: Fresh)
    returns (res: Response)
    ensures db.ReadFragment(user, Str(SplitParam(param).0)).None? ==>
      res == NotFound(Rewrapped(Error("Fragment was not found")))
    ensures db.Valid() && db.ReadFragment(user, Str(SplitParam(param).0)).Some? ==>
      res == Respond(db.ReadFragment(user, Str(SplitParam(param).0)).value,
                     db.ReadFragmentData(user, Str(SplitParam(param).0)), SplitParam(param).1, lookup, lib)
  {
    var (id, extension) := SplitParam(param);
    var found := Fragment.ById(db, user, Str(id), gen);
    if found.Failure? {
      return NotFound(found.error);
    }
    var fragment := found.value;
    var data := fragment.GetData(db);
    if extension != "" {
      var formats := Formats(fragment.contentType);
      if formats.Failure? {
        return NotFound(formats.error);
      }
      if formats.value.None? {
        return NotFound(TypeError);
      }
      if extension in lookup && lookup[extension] in formats.value.value {
        if data.None? {
          return NotFound(TypeError);
        }
        var converted := LocalConvertData(lib, data.value, MimeType(fragment.contentType).value, extension);
        if converted.Failure? {
          return NotFound(converted.error);
        }
        return Response(200, Some(lookup[extension]), Converted(converted.value));
      }
      return InvalidExtension;
    }
    return Response(200, Some(fragment.contentType), Raw(data));
  }

  /** With no extension the stored bytes are served unchanged under the fragment's own type. */
  lemma RawServedUnchanged(rec: FragmentRecord, data: Option<seq<byte>>, lookup: map<string, string>, lib: Libraries)
    ensures Respond(rec, data, "", lookup, lib) == Response(200, Some(rec.contentType), Raw(data))
  {
  }

  /** With an extension the answer is 200 exactly when the looked-up type is among the
      formats and the local conversion succeeds; it then carries the looked-up type and
      the converted data. */
  lemma ConvertedExactly(rec: FragmentRecord, data: Option<seq<byte>>, extension: string,
                         lookup: map<string, string>, lib: Libraries)
    requires extension != ""
    ensures Respond(rec, data, extension, lookup, lib).status == 200 <==>
      && Formats(rec.contentType).Success? && Formats(rec.contentType).value.Some?
      && extension in lookup && lookup[extension] in Formats(rec.contentType).value.value
      && data.Some?
      && LocalConvertData(lib, data.value, MimeType(rec.contentType).value, extension).Success?
    ensures Respond(rec, data, extension, lookup, lib).status == 200 ==>
      Respond(rec, data, extension, lookup, lib) ==
        Response(200, Some(lookup[extension]),
                 Converted(LocalConvertData(lib, data.value, MimeType(rec.contentType).value, extension).value))
  {
  }

  /** 415 comes exactly when the type has formats and the looked-up type is not among
      them; no conversion is attempted, so the answer depends neither on the data nor
      on the libraries. */
  lemma RejectedExactly(rec: FragmentRecord, data: Option<seq<byte>>, other: Option<seq<byte>>, extension: string,
                        lookup: map<string, string>, lib: Libraries, otherLib: Libraries)
    ensures Respond(rec, data, extension, lookup, lib).status == 415 <==>
      && extension != ""
      && Formats(rec.contentType).Success? && Formats(rec.contentType).value.Some?
      && !(extension in lookup && lookup[extension] in Formats(rec.contentType).value.value)
    ensures Respond(rec, data, extension, lookup, lib).status == 415 ==>
      Respond(rec, data, extension, lookup, lib) == InvalidExtension == Respond(rec, other, extension, lookup, otherLib)
  {
  }

  /** A fragment of type application/x-yaml cannot be fetched with any extension:
      its formats are null. */
  lemma XYamlWithExtensionNotFound(rec: FragmentRecord, data: Option<seq<byte>>, extension: string,
                                   lookup: map<string, string>, lib: Libraries)
    requires rec.contentType == "application/x-yaml" && extension != ""
    ensures Respond(rec, data, extension, lookup, lib) == NotFound(TypeError)
  {
    var t := rec.contentType;
    assert ValidTypes[6] == t;
    FormatsIgnoreParameters(t, "");
    XYamlHasNoFormats();
    assert Formats(t) == Success(None);
  }

  /** Each listed type (bar x-yaml) can be fetched under its own type: the identity
      conversion is in its formats, and the local convertData passes plain text,
      csv and images through unchanged. */
  lemma IdentityConversionServed(rec: FragmentRecord, data: seq<byte>, extension: string,
                                 lookup: map<string, string>, lib: Libraries)
    requires rec.contentType in ValidTypes && rec.contentType != "application/x-yaml"
    requires extension != "" && extension in lookup && lookup[extension] == rec.contentType
    requires rec.contentType == "application/json" ==> lib.jsonParses(data) || extension != "txt"
    ensures Respond(rec, Some(data), extension, lookup, lib).status == 200
    ensures Respond(rec, Some(data), extension, lookup, lib).contentType == Some(rec.contentType)
  {
    var t := rec.contentType;
    FormatsIgnoreParameters(t, "");
    ListedTypesAreMimeTypes(t, "");
    var formats := FormatsFor(t).value;
    FormatsIncludeSelfAndStayListed(t);
    assert lookup[extension] in formats;
    LocalPassThroughExactly(lib, data, t, extension);
    assert LocalConvertData(lib, data, t, extension).Success?;
  }
}
