/** The `convertData` dispatch of src/model/fragment.js: which transform a
    (source mime type, target extension) pair selects. The transforms themselves
    (markdown-it, html-to-text, PapaParse, JSON, js-yaml, sharp) are not modelled;
    their results are symbolic terms, and whether they fail is a parameter. */
module Conversion {
  import opened Wrappers
  import opened Js

  /** The sharp encoders. */
  datatype ImageFormat = Png | Jpeg | Webp | Gif | Avif

  /** What a conversion returns, named by the transforms that produced it. */
  datatype Term =
    | Decoded(bytes: seq<byte>)                   // the bytes decoded as a UTF-8 string
    | MarkdownRendered(markdown: Term)            // md.render
    | HtmlAsText(html: Term, wordwrap: nat)       // htmlToText with a wrap width
    | JsonParsed(json: Term)                      // JSON.parse
    | JsonPretty(value: Term)                     // JSON.stringify(value, null, 2)
    | YamlDumped(value: Term)                     // yaml.dump
    | CsvRows(csv: Term)                          // Papa.parse(...).data, header row as keys
    | ImageEncoded(image: seq<byte>, format: ImageFormat)  // sharp(data).<format>().toBuffer()

  /** Where the libraries can fail: JSON.parse throws a SyntaxError on text that is
      not JSON, Papa.parse reports its errors (their messages, in order), and sharp
      throws on bytes it cannot decode as an image. */
  datatype Libraries = Libraries(
    jsonParses: seq<byte> -> bool,
    csvErrors: seq<byte> -> seq<string>,
    imageDecodes: seq<byte> -> bool)

  /** The image types that share the image branch of the switch. */
  const ImageTypes: seq<string> := ["image/png", "image/jpeg", "image/webp", "image/gif", "image/avif"]

  /** The encoder the image branch picks for an extension, if any. */
  function ImageTarget(to: string): Option<ImageFormat> {
    if to == "png" then Some(Png)
    else if to == "jpg" then Some(Jpeg)
    else if to == "webp" then Some(Jpeg)
    else if to == "gif" then Some(Gif)
    else if to == "avif" then Some(Avif)
    else None
  }

  /** JSON.parse of the decoded bytes. */
  function ParseJson(lib: Libraries, data: seq<byte>): Result<Term, Thrown> {
    if lib.jsonParses(data) then Success(JsonParsed(Decoded(data))) else Failure(SyntaxError)
  }

  /** Fragment.convertData(data, from, to). It throws only a library's error, an encoded
      image is always the input's bytes, and no input reaches the webp encoder. */
  function ConvertData(lib: Libraries, data: seq<byte>, from: string, to: string): (r: Result<Term, Thrown>)
    ensures r.Failure? ==>
      r.error in {SyntaxError, CodecError} ||
      (from == "text/csv" && to == "json" && |lib.csvErrors(data)| != 0 &&
       r.error == Error("CSV parse error: " + lib.csvErrors(data)[0]))
    ensures r.Success? && r.value.ImageEncoded? ==> r.value.image == data && r.value.format != Webp
  {
    var text := Decoded(data);
    if from == "text/markdown" then
      if to == "txt" then Success(HtmlAsText(MarkdownRendered(text), 150))
      else if to == "html" then Success(MarkdownRendered(text))
      else Success(text)
    else if from == "text/html" then
      if to == "txt" then Success(HtmlAsText(text, 130)) else Success(text)
    else if from == "text/csv" then
      if to == "txt" then Success(text)
      else if to == "json" then
        var errors := lib.csvErrors(data);
        if |errors| != 0 then Failure(Error("CSV parse error: " + errors[0]))
        else Success(JsonPretty(CsvRows(text)))
      else Success(text)
    else if from == "application/json" then
      if to == "txt" then
        match ParseJson(lib, data)
        case Success(v) => Success(JsonPretty(v))
        case Failure(e) => Failure(e)
      else if to == "application/yaml" || to == "application/x-yaml" then
        match ParseJson(lib, data)
        case Success(v) => Success(YamlDumped(v))
        case Failure(e) => Failure(e)
      else Success(text)
    else if from in ImageTypes then
      match ImageTarget(to)
      case Some(f) => if lib.imageDecodes(data) then Success(ImageEncoded(data, f)) else Failure(CodecError)
      case None => Success(text)
    else Success(text)
  }

  /** The pairs for which some transform is applied, written out independently of
      the dispatch. text/csv to txt is not among them: it returns the decoded text. */
  ghost predicate Transforms(from: string, to: string) {
    || (from == "text/markdown" && (to == "txt" || to == "html"))
    || (from == "text/html" && to == "txt")
    || (from == "text/csv" && to == "json")
    || (from == "application/json" && (to == "txt" || to == "application/yaml" || to == "application/x-yaml"))
    || (from in ImageTypes && to in ["png", "jpg", "webp", "gif", "avif"])
  }

  /** Every unmatched pair returns the input decoded as a string, and only those do:
      a matched pair either transforms or throws. */
  lemma PassThroughExactly(lib: Libraries, data: seq<byte>, from: string, to: string)
    ensures ConvertData(lib, data, from, to) == Success(Decoded(data)) <==> !Transforms(from, to)
  {
  }

  /** The conversion throws exactly when a parser or decoder on the selected path fails. */
  lemma FailsExactly(lib: Libraries, data: seq<byte>, from: string, to: string)
    ensures ConvertData(lib, data, from, to).Failure? <==>
      || (from == "text/csv" && to == "json" && |lib.csvErrors(data)| != 0)
      || (from == "application/json" && (to == "txt" || to == "application/yaml" || to == "application/x-yaml")
          && !lib.jsonParses(data))
      || (from in ImageTypes && ImageTarget(to).Some? && !lib.imageDecodes(data))
  {
  }

  /** text/csv to txt returns the input unchanged, whatever the parser would say. */
  lemma CsvToTxtUnchanged(lib: Libraries, data: seq<byte>)
    ensures ConvertData(lib, data, "text/csv", "txt") == Success(Decoded(data))
  {
  }

  /** A CSV parse error is raised as an Error carrying the first message of the parser. */
  lemma CsvParseErrorCarriesMessage(lib: Libraries, data: seq<byte>)
    requires |lib.csvErrors(data)| > 0
    ensures ConvertData(lib, data, "text/csv", "json") == Failure(Error("CSV parse error: " + lib.csvErrors(data)[0]))
  {
  }

  /** A webp target on decodable image bytes is encoded by the JPEG encoder. */
  lemma WebpTargetEncodedAsJpeg(lib: Libraries, data: seq<byte>, from: string)
    requires from in ImageTypes && lib.imageDecodes(data)
    ensures ConvertData(lib, data, from, "webp") == Success(ImageEncoded(data, Jpeg))
  {
  }

  /** The json to yaml branch compares the target with mime types, not extensions:
      the extension "yaml" passes through. */
  lemma JsonYamlExtensionPassesThrough(lib: Libraries, data: seq<byte>)
    ensures ConvertData(lib, data, "application/json", "yaml") == Success(Decoded(data))
    ensures lib.jsonParses(data) ==>
      ConvertData(lib, data, "application/json", "application/yaml") == Success(YamlDumped(JsonParsed(Decoded(data))))
  {
  }
}
