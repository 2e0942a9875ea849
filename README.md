# Fragments: the Fragment entity and GET /fragments/:id

A Dafny model of the core of the fragments service. A *fragment* is a blob
of bytes tagged with an owner and a Content-Type. It is stored as two
records under the key (ownerId, id): its metadata
(`{id, ownerId, created, updated, type, size}`) and its bytes. It can be
served back converted into another format that its type allows.

The model covers two source files.

`src/model/fragment.js` is modelled as follows.

- **Values** (`js.dfy`). Fields that JavaScript leaves untyped are a
  `Js.Value`, and JavaScript truthiness is `Js.Truthy`.
- **Type tables** (`type_registry.dfy`).
  - `isSupportedType` is a substring test against the twelve listed types.
  - The `formats` getter is the table from a mime type to the ordered list
    of types it converts to.
- **Content types** (`content_types.dfy`).
  - `mimeType` is modelled with the part of `content-type`'s parse it relies
    on: the text before the first `;`, trimmed, matched against the
    `type "/" subtype` token grammar of RFC 7231 section 3.1.1.1 (tchar as
    in RFC 7230 section 3.2.6), then lower-cased. A failed match throws a
    TypeError.
  - `isText` is a test on the mime type's prefix.
- **Conversion** (`conversion.dfy`). The `convertData` switch decides which
  transform a (source mime type, target extension) pair selects. The
  transforms are symbolic `Term`s. A `Libraries` parameter gives each
  library's failure condition.
- **Construction** (`records.dfy`). The constructor's checks and defaults
  are the function `Records.Construct` on values.
- **The stores** (`storage.dfy`). The stores of `./data` are a `Store` class
  with two maps keyed by (ownerId, id). A ghost log records the order of the
  writes.
- **The `Fragment` class** (`fragments.dfy`).
  - `save` and `setData` update the object's fields and then write to the
    stores.
  - The static `byId`, `byUser` and `delete` read from and write to the same
    stores.
  - The catch blocks of `byUser`, `byId`, `delete`, `save` and `setData`
    throw the caught error again as `new Error(err)`, modelled as
    `Rewrapped`.
  - The catch block of `getData` would throw ``new Error(`Error: ${err}`)``
    instead. The model never reaches it: `getData` returns the read
    without awaiting it, and the model's reads never fail.

`src/routes/api/get-by-id.js` is modelled in `get_by_id.dfy`.

- The route parameter is split into an id and an extension the way
  `path.basename` and `path.extname` do it.
- The handler's own `convertData` is modelled.
- `GetById.Respond` is the decision, written as a function. It chooses
  between four answers:
  - the raw bytes with the fragment's type;
  - 200 with a converted body;
  - 415 "Invalid extension";
  - 404.
- `GetById.Handle` is the handler as a method. It looks up the fragment and
  its data and is proved to answer as `Respond` says.

`examples.dfy` holds concrete instances taken from the doc comments and the
unit tests.

Behaviours of the code that the model keeps, since it follows the code:

- `isSupportedType("text/plain-custom")` holds. Such a fragment can be
  created, but its `formats` is null, so fetching it with any extension
  gives 404.
- `application/x-yaml` is supported but has no `formats` entry.
- The model's `convertData` has these quirks:
  - it encodes a `webp` target with the JPEG encoder;
  - its json→yaml branch compares the target against mime types, so the
    extension `yaml` passes through.
- The handler's own `convertData` has these quirks:
  - its json→txt result is the parsed value, not a string;
  - it never re-encodes images, so a request for `.png` serves the stored
    bytes as a string.
- `getData` answers `undefined` for a missing byte record rather than
  failing. In the handler, the conversion path then fails on
  `Buffer.from(undefined)` and answers 404.
- A trailing dot (`abc.`) gives the extension `.`. The `extension` is then
  empty and the id is `abc`.

## Model

| member | source | states |
|---|---|---|
| ContentTypes.MimeType | src/model/fragment.js:146-149 | the result is a lower-case media type with no `;`; the only failure is a TypeError |
| ContentTypes.IndexOfFindsFirst | src/model/fragment.js:146-149 | the `;` search finds the first occurrence, and finds none exactly when there is none |
| ContentTypes.MimeTypeOfMediaType | src/model/fragment.js:146-149 | a media type, bare or followed by `;` and parameters, has its lower-cased self as mime type |
| ContentTypes.MimeTypeIgnoresSurroundingSpace | src/model/fragment.js:146-149 | white space around a media type, with or without parameters, is trimmed away |
| ContentTypes.MimeTypeDropsParameters | src/model/fragment.js:142-149 | a lower-case media type followed by any parameters has that media type as mime type |
| ContentTypes.IsText | src/model/fragment.js:155-157 | succeeds exactly when `mimeType` does |
| ContentTypes.IsTextIgnoresParameters | src/model/fragment.js:151-157 | `isText` holds iff the mime type starts with `text/`, whatever the parameters |
| TypeRegistry.ContainsIffOccurs | src/model/fragment.js:209 | the `includes` test holds iff the needle occurs at some position of the value |
| TypeRegistry.IsSupportedType | src/model/fragment.js:193-210 | `isSupportedType(v)` iff one of the twelve listed strings occurs at some position of `v` |
| TypeRegistry.SupportedWithAnySuffix | src/model/fragment.js:188-210 | a listed type followed by anything (`text/plain; charset=utf-8`) is supported |
| TypeRegistry.ListedTypesSupported | src/model/fragment.js:194-207 | every listed type is supported |
| TypeRegistry.Formats | src/model/fragment.js:163-186 | `formats` throws exactly when `mimeType` does, and otherwise is the table entry of the mime type |
| TypeRegistry.FormatsFor | src/model/fragment.js:164-185 | the table has an entry exactly for the listed types other than `application/x-yaml` |
| TypeRegistry.FormatsIncludeSelfAndStayListed | src/model/fragment.js:163-186 | every entry contains its own type, and every output is a listed, supported type |
| TypeRegistry.ImageTypesShareFormats | src/model/fragment.js:177-182 | the five image types share one five-element list |
| TypeRegistry.XYamlHasNoFormats | src/model/fragment.js:200-201 | `application/x-yaml` is supported but its `formats` is null |
| TypeRegistry.ListedTypeIsMediaType | src/model/fragment.js:194-207 | every listed type is a lower-case media type by the content-type grammar |
| TypeRegistry.ListedTypesAreMimeTypes | src/model/fragment.js:146-149 | every listed type, bare or with parameters, has itself as mime type |
| TypeRegistry.FormatsIgnoreParameters | src/model/fragment.js:163-186 | a listed type's formats are the same with or without parameters |
| Conversion.ConvertData | src/model/fragment.js:212-264 | only a library's error is thrown (SyntaxError, the image codec's error, or the CSV message); an encoded image is the input's bytes and never uses the webp encoder |
| Conversion.PassThroughExactly | src/model/fragment.js:212-264 | the result is the input decoded as a string exactly for the pairs no case transforms |
| Conversion.FailsExactly | src/model/fragment.js:212-264 | conversion throws exactly when the parser or decoder on the selected path fails |
| Conversion.CsvToTxtUnchanged | src/model/fragment.js:226 | text/csv to txt returns the input unchanged |
| Conversion.CsvParseErrorCarriesMessage | src/model/fragment.js:227-238 | a CSV parse error throws `CSV parse error: ` followed by the first parser message |
| Conversion.WebpTargetEncodedAsJpeg | src/model/fragment.js:251-261 | on decodable image bytes a webp target is encoded by the JPEG encoder |
| Conversion.JsonYamlExtensionPassesThrough | src/model/fragment.js:242-249 | the json branch dumps YAML only for the mime-type targets; the extension `yaml` passes through |
| Records.Construct | src/model/fragment.js:24-43 | every constructed record has truthy id, owner and timestamps, a supported type and an accepted size |
| Records.ConstructFailures | src/model/fragment.js:25-35 | construction fails iff the owner is falsy, the type is missing or unsupported, or a truthy size is not a non-negative number; the first three each throw their own error |
| Records.ConstructKeepsGivenFields | src/model/fragment.js:37-42 | owner and type are kept verbatim; the default size is 0 and a given size is kept; a given id or timestamp is kept and a missing one is generated |
| Records.ReconstructRoundTrip | src/model/fragment.js:66-72 | rebuilding a valid record from its stored form gives it back, whatever could be generated |
| Records.ConstructedSurvivesReconstruction | src/model/fragment.js:37-42 | a constructed fragment read back through the constructor is unchanged |
| Storage.Store.constructor | src/model/fragment.js:14-21 | the stores start empty and valid |
| Storage.Store.ReadFragment | src/model/fragment.js:68 | a record is found exactly when one is stored under (ownerId, id); in a valid store it is a valid fragment with that owner and id |
| Storage.Store.ReadFragmentData | src/model/fragment.js:114 | bytes are found exactly when some are stored under (ownerId, id); in a valid store only where a record is |
| Storage.Store.WriteFragment | src/model/fragment.js:101 | the record is stored under its own (ownerId, id); the bytes are untouched; one metadata write is logged |
| Storage.Store.WriteFragmentData | src/model/fragment.js:133 | the bytes are stored under (ownerId, id); the metadata is untouched; one data write is logged |
| Storage.Store.ListFragments | src/model/fragment.js:53 | ids when not expanding, records when expanding, exactly those stored for the owner |
| Storage.Store.DeleteFragment | src/model/fragment.js:87 | a missing record fails with nothing changed; otherwise both the metadata and the bytes of the key are removed |
| Storage.WriteThenRead | tests/unit/memory.test.js:28-37 | bytes written under a key are read back unchanged, and other keys keep their bytes |
| Fragments.Fragment.FromRecord | src/model/fragment.js:37-42 | the object's fields are exactly the record's |
| Fragments.Fragment.New | src/model/fragment.js:24-43 | the constructor fails as `Construct` does and otherwise builds an object holding `Construct`'s record |
| Fragments.Fragment.Save | src/model/fragment.js:98-106 | `updated` becomes the save time, nothing else changes, and the metadata store then holds the record |
| Fragments.Fragment.SetData | src/model/fragment.js:126-139 | a non-Buffer is rejected with no change; otherwise size is the byte length, `updated` the save time, the metadata is written before the bytes, and the bytes read back as given |
| Fragments.Fragment.GetData | src/model/fragment.js:112-119 | the stored bytes of the fragment's key, or none |
| Fragments.Fragment.ById | src/model/fragment.js:66-77 | a missing record fails with `Fragment was not found`; in a valid store a present one yields a fragment holding that record |
| Fragments.Fragment.Delete | src/model/fragment.js:85-92 | succeeds iff the record existed; a success removes exactly that key from both stores and logs one removal; a failure rethrows the store error and changes nothing; the store stays valid |
| Fragments.Fragment.ByUser | src/model/fragment.js:51-58 | ids iff not expanding; the ids, or in a valid store the records, are exactly the owner's |
| GetById.LastIndexOfFindsLast | src/routes/api/get-by-id.js:13-14 | the search from the end finds the last occurrence, and finds none exactly when there is none |
| GetById.ExtOf | src/routes/api/get-by-id.js:13-14 | the extension is empty or a proper suffix of the component that starts with `.` |
| GetById.SplitsAtLastDot | src/routes/api/get-by-id.js:12-14 | `name.ext` with no dot in `ext` splits into `name` and `ext` |
| GetById.NoDotNoExtension | src/routes/api/get-by-id.js:12-14 | without a dot the id is the whole parameter and the extension is empty |
| GetById.SplitParam | src/routes/api/get-by-id.js:12-14 | the extension holds no dot, and a non-empty one rebuilds the last path component with the id |
| GetById.LeadingDotNoExtension | src/routes/api/get-by-id.js:12-14 | `.rest` with no other dot is all id and no extension |
| GetById.TrailingDotDropped | src/routes/api/get-by-id.js:12-14 | `name.` splits into `name` and an empty extension |
| GetById.LocalConvertData | src/routes/api/get-by-id.js:47-74 | the only failure is JSON.parse's SyntaxError on json to txt, and no image is ever re-encoded |
| GetById.LocalPassThroughExactly | src/routes/api/get-by-id.js:47-74 | only markdown to txt or html, html to txt and json to txt transform; json to txt fails only on bad JSON and returns the parsed value |
| GetById.LocalAgreesOnMarkup | src/routes/api/get-by-id.js:50-65 | on markdown and html sources the handler's convertData agrees with the model's |
| GetById.LocalDiffersFromModel | src/routes/api/get-by-id.js:47-74 | the two differ on json to txt, csv to json and every image target |
| GetById.Handle | src/routes/api/get-by-id.js:10-45 | a missing fragment gives 404; otherwise, in a valid store, the answer is `Respond` on the stored record, its bytes and the extension |
| GetById.Respond | src/routes/api/get-by-id.js:18-44 | the answer is 200, 404 or 415, and it is 200 exactly when it carries the raw or the converted data |
| GetById.RawServedUnchanged | src/routes/api/get-by-id.js:37-40 | with no extension the stored bytes are served unchanged under the fragment's own type |
| GetById.ConvertedExactly | src/routes/api/get-by-id.js:23-31 | 200 with an extension iff the looked-up type is in `formats` and converting succeeds; the body is the converted data under the looked-up type |
| GetById.RejectedExactly | src/routes/api/get-by-id.js:32-35 | 415 iff the type has formats that lack the looked-up type; the answer then depends neither on the data nor on the libraries |
| GetById.XYamlWithExtensionNotFound | src/routes/api/get-by-id.js:27 | an `application/x-yaml` fragment with any extension gives 404 (null formats) |
| GetById.IdentityConversionServed | src/routes/api/get-by-id.js:23-31 | a listed type other than x-yaml, fetched with an extension that maps back to it, gives 200 under its own type |
| Examples.MimeTypeDropsCharset | src/model/fragment.js:142-149 | `text/html; charset=utf-8` has mime type `text/html` |
| Examples.MimeTypeRejectsSpaceInType | src/model/fragment.js:146-149 | a type part with a space in it throws a TypeError |
| Examples.SupportedByContainment | src/model/fragment.js:188-210 | `text/plain; charset=utf-8` and `text/plain-custom` are supported |
| Examples.AbsentFromPdf | src/model/fragment.js:209 | a listed type whose '/' cannot line up with the only '/' of `application/pdf` does not occur in it |
| Examples.PdfUnsupported | src/model/fragment.js:193-210 | `application/pdf` is not supported |
| Examples.EmptyOwnerRejected | src/model/fragment.js:25-27 | an empty owner throws `ownerId is required` |
| Examples.NegativeSizeRejected | src/model/fragment.js:32-35 | size -1 throws `size cannot be negative` |
| Examples.PdfRejected | src/model/fragment.js:28-30 | type `application/pdf` throws `invalid types throw` |
| Examples.SplitExamples | src/routes/api/get-by-id.js:12-14 | `abc.txt` is id `abc` with extension `txt`; `abc123` has no extension |
| Examples.UnknownIdNotFound | tests/unit/get-by-id.test.js:34-40 | fetching the unknown id `abc123` gives 404 |
| Examples.CreateWithData | src/model/fragment.js:126-139 | a created fragment given data is stored with its record and its bytes in a valid store |
| Examples.FetchOwnType | src/routes/api/get-by-id.js:23-31 | a created text fragment fetched with its own extension gives 200 under its own type |
| Examples.IdentityFetches | tests/unit/get-by-id.test.js:42-85 | `.txt` on text/plain and `.md` on text/markdown both give 200 |

## Left out

- The transforms themselves are left out: markdown-it, html-to-text, PapaParse, `JSON.parse`/`stringify`, js-yaml and sharp. Results are symbolic terms that name the transform and its options (wrap widths 150 and 130). Whether each library fails is a parameter.
- The mime-types `lookup` table is a parameter: a partial map from extension to type. An unknown extension gives `false`, which no `formats` list includes.
- The `content-type` parse is only partly modelled. Its parameter syntax is left out: a malformed parameter list, which makes the package throw, is taken to parse. Trimming uses the JavaScript white-space set.
- `crypto.randomUUID()` and `new Date().toISOString()` are parameters (`Records.Fresh` and the `now` strings).
- The `./data` module is not part of this model. It is the two maps of `Storage.Store`. Its writes never fail. `deleteFragment` fails when the metadata record is missing and otherwise removes both records. `listFragments` returns a set, so the list's order is left out.
- Storage.Store.WriteFragment: stores the record value, so aliasing between the stored object and a live `Fragment` (the `instanceof Fragment` branch of `byId`) is left out; a read always rebuilds the fragment through the constructor.
- Async/await and the torn-write race between the metadata write and the byte write are left out. The model runs each operation to completion; the ghost write log records only the order within one call.
- Numbers are reals. NaN, infinities and `-0` are left out.
- A `type` that is neither a string nor falsy makes `includes` throw a TypeError. Buffers and arrays also have `includes`, and that case is left out.
- Logging (`src/logger.js`) and all HTTP glue are left out: the Express routers, the other handlers, the auth and health routes, the body-size limit and the response envelope (`createErrorResponse`'s `message` is carried as the thrown value).
- The guarded update in `src/routes/api/put.js` (400 when the type differs) is left out. That route is request glue around `setData`.
- The model keeps these behaviours of the code:
  - unmatched conversion pairs pass through unconverted;
  - `getData` gives `undefined` for missing bytes;
  - the wrong-type error message is `invalid types throw`;
  - `application/x-yaml` is not normalised.
