/** The `mimeType` and `isText` getters of a fragment (src/model/fragment.js),
    with the part of the `content-type` package's parse that they rely on:
    the text before the first ';', trimmed, checked against the
    type "/" subtype token grammar of RFC 7231 section 3.1.1.1, lower-cased. */
module ContentTypes {
  import opened Wrappers
  import opened Js

  /** The characters String.prototype.trim removes (white space and line terminators). */
  predicate IsJsSpace(c: char) {
    || ('\t' <= c <= '\r')  // tab, line feed, vertical tab, form feed, carriage return
    || c == ' ' || c == '\U{00A0}' || c == '\U{1680}' || ('\U{2000}' <= c <= '\U{200A}')
    || c == '\U{2028}' || c == '\U{2029}' || c == '\U{202F}' || c == '\U{205F}'
    || c == '\U{3000}' || c == '\U{FEFF}'
  }

  function TrimStart(s: string): string {
    if |s| > 0 && IsJsSpace(s[0]) then TrimStart(s[1..]) else s
  }

  function TrimEnd(s: string): string {
    if |s| > 0 && IsJsSpace(s[|s| - 1]) then TrimEnd(s[..|s| - 1]) else s
  }

  /** String.prototype.trim. */
  function Trim(s: string): string {
    TrimEnd(TrimStart(s))
  }

  /** A tchar of RFC 7230 section 3.2.6: the characters a type or subtype may hold. */
  predicate IsTokenChar(c: char) {
    || ('a' <= c <= 'z') || ('A' <= c <= 'Z') || ('0' <= c <= '9')
    || c == '!' || c == '#' || c == '$' || c == '%' || c == '&' || c == '\'' || c == '*'
    || c == '+' || c == '-' || c == '.' || c == '^' || c == '_' || c == '`' || c == '|' || c == '~'
  }

  predicate AllTokenChars(s: string) {
    forall i :: 0 <= i < |s| ==> IsTokenChar(s[i])
  }

  /** `i` is the position of the first `c` in `s`. */
  ghost predicate FirstAt(s: string, c: char, i: nat) {
    i < |s| && s[i] == c && c !in s[..i]
  }

  /** String.prototype.indexOf for one character; None stands for -1. */
  function IndexOf(s: string, c: char): (r: Option<nat>)
    ensures r.Some? ==> r.value < |s|
  {
    if |s| == 0 then None
    else if s[0] == c then Some(0)
    else match IndexOf(s[1..], c)
      case None => None
      case Some(i) => Some(i + 1)
  }

  lemma {:induction false} IndexOfFindsFirst(s: string, c: char)
    ensures IndexOf(s, c).Some? ==> FirstAt(s, c, IndexOf(s, c).value)
    ensures IndexOf(s, c).None? <==> c !in s
  {
    if |s| > 0 && s[0] != c {
      IndexOfFindsFirst(s[1..], c);
      assert s == [s[0]] + s[1..];
      if IndexOf(s[1..], c).Some? {
        var i := IndexOf(s[1..], c).value;
        assert s[..i + 1] == [s[0]] + s[1..][..i];
      }
    }
  }

  lemma FirstAtUnique(s: string, c: char, i: nat, j: nat)
    requires FirstAt(s, c, i) && FirstAt(s, c, j)
    ensures i == j
  {
  }

  /** The type/subtype grammar the package checks the trimmed text against:
      one or more token characters, '/', one or more token characters
      ('/' is not a token character, so there is exactly one). */
  predicate IsMediaType(s: string) {
    exists i | 0 < i < |s| - 1 :: s[i] == '/' && AllTokenChars(s[..i]) && AllTokenChars(s[i + 1..])
  }

  function LowerChar(c: char): char {
    if 'A' <= c <= 'Z' then (c as int + 32) as char else c
  }

  /** String.prototype.toLowerCase, on the ASCII text a media type is made of. */
  function Lower(s: string): (r: string)
    ensures |r| == |s|
    ensures forall i :: 0 <= i < |s| ==> r[i] == LowerChar(s[i])
  {
    if s == [] then [] else [LowerChar(s[0])] + Lower(s[1..])
  }

  predicate IsLowerCase(s: string) {
    forall i :: 0 <= i < |s| ==> !('A' <= s[i] <= 'Z')
  }

  /** The text before the first ';', or all of it. */
  function BeforeSemicolon(header: string): string {
    match IndexOf(header, ';')
    case None => header
    case Some(i) => header[..i]
  }

  /** The `mimeType` getter: contentType.parse(type).type. A type part that does
      not match the grammar makes the package throw a TypeError. */
  function MimeType(header: string): (r: Result<string, Thrown>)
    ensures r.Failure? ==> r.error == TypeError
    ensures r.Success? ==> IsMediaType(r.value) && IsLowerCase(r.value) && ';' !in r.value
  {
    var t := Trim(BeforeSemicolon(header));
    if IsMediaType(t) then
      LowerMediaType(t);
      Success(Lower(t))
    else
      Failure(TypeError)
  }

  /** Lower-casing yields no upper-case letter and changes nothing but letters. */
  lemma LowerCharFacts(c: char)
    ensures !('A' <= LowerChar(c) <= 'Z')
    ensures IsTokenChar(c) ==> IsTokenChar(LowerChar(c))
    ensures (LowerChar(c) == ';') == (c == ';') && (LowerChar(c) == '/') == (c == '/')
  {
  }

  /** Lower-casing keeps a prefix of token characters token characters. */
  lemma LowerKeepsTokenPrefix(t: string, i: nat)
    requires i <= |t| && AllTokenChars(t[..i])
    ensures AllTokenChars(Lower(t)[..i])
  {
    var l := Lower(t)[..i];
    forall k | 0 <= k < |l| ensures IsTokenChar(l[k]) {
      assert t[..i][k] == t[k];
      LowerCharFacts(t[k]);
    }
  }

  /** Lower-casing keeps a suffix of token characters token characters. */
  lemma LowerKeepsTokenSuffix(t: string, i: nat)
    requires i <= |t| && AllTokenChars(t[i..])
    ensures AllTokenChars(Lower(t)[i..])
  {
    var l := Lower(t)[i..];
    forall k | 0 <= k < |l| ensures IsTokenChar(l[k]) {
      assert t[i..][k] == t[i + k];
      LowerCharFacts(t[i + k]);
    }
  }

  lemma LowerIsLowerCase(s: string)
    ensures IsLowerCase(Lower(s))
  {
    forall k | 0 <= k < |s| ensures !('A' <= Lower(s)[k] <= 'Z') {
      LowerCharFacts(s[k]);
    }
  }

  lemma LowerAvoidsSemicolon(s: string)
    requires ';' !in s
    ensures ';' !in Lower(s)
  {
    forall k | 0 <= k < |s| ensures Lower(s)[k] != ';' {
      LowerCharFacts(s[k]);
    }
  }

  /** Lower-casing keeps a media type a media type, with no ';' in it. */
  lemma LowerMediaType(t: string)
    requires IsMediaType(t)
    ensures IsMediaType(Lower(t)) && IsLowerCase(Lower(t)) && ';' !in Lower(t)
  {
    var i :| 0 < i < |t| - 1 && t[i] == '/' && AllTokenChars(t[..i]) && AllTokenChars(t[i + 1..]);
    var l := Lower(t);
    MediaTypeCharacters(t);
    LowerIsLowerCase(t);
    LowerAvoidsSemicolon(t);
    LowerKeepsTokenPrefix(t, i);
    LowerKeepsTokenSuffix(t, i + 1);
    LowerCharFacts(t[i]);
    assert l[i] == '/';
  }

  /** The `isText` getter: the mime type starts with "text/". It throws when `mimeType` does. */
  function IsText(header: string): (r: Result<bool, Thrown>)
    ensures r.Success? <==> MimeType(header).Success?
  {
    match MimeType(header)
    case Success(m) => Success(|m| >= 5 && m[..5] == "text/")
    case Failure(e) => Failure(e)
  }

  /** A media type holds no ';' and neither starts nor ends with white space. */
  lemma MediaTypeCharacters(base: string)
    requires IsMediaType(base)
    ensures ';' !in base && !IsJsSpace(base[0]) && !IsJsSpace(base[|base| - 1])
  {
    var i :| 0 < i < |base| - 1 && base[i] == '/' && AllTokenChars(base[..i]) && AllTokenChars(base[i + 1..]);
    forall k | 0 <= k < |base| ensures base[k] != ';' {
      if k < i {
        assert base[..i][k] == base[k];
      } else if k > i {
        assert base[i + 1..][k - i - 1] == base[k];
      }
    }
    assert base[..i][0] == base[0];
    assert base[i + 1..][|base| - i - 2] == base[|base| - 1];
  }

  lemma BeforeSemicolonOfParameters(base: string, params: string)
    requires ';' !in base
    ensures BeforeSemicolon(base) == base
    ensures BeforeSemicolon(base + ";" + params) == base
  {
    IndexOfFindsFirst(base, ';');
    var h := base + ";" + params;
    IndexOfFindsFirst(h, ';');
    var j := IndexOf(h, ';').value;
    assert h[|base|] == ';';
    assert h[..|base|] == base;
    FirstAtUnique(h, ';', j, |base|);
  }

  /** A media type, bare or followed by parameters, has its lower-cased self as mime type. */
  lemma MimeTypeOfMediaType(t: string, params: string)
    requires IsMediaType(t)
    ensures MimeType(t) == Success(Lower(t))
    ensures MimeType(t + ";" + params) == Success(Lower(t))
  {
    MediaTypeCharacters(t);
    BeforeSemicolonOfParameters(t, params);
    assert Trim(t) == t;
  }

  lemma {:induction false} TrimStartSkipsSpace(lead: string, s: string)
    requires forall i | 0 <= i < |lead| :: IsJsSpace(lead[i])
    requires s == "" || !IsJsSpace(s[0])
    ensures TrimStart(lead + s) == s
  {
    if lead == [] {
      assert lead + s == s;
    } else {
      assert (lead + s)[1..] == lead[1..] + s;
      TrimStartSkipsSpace(lead[1..], s);
    }
  }

  lemma {:induction false} TrimEndSkipsSpace(s: string, trail: string)
    requires forall i | 0 <= i < |trail| :: IsJsSpace(trail[i])
    requires s == "" || !IsJsSpace(s[|s| - 1])
    ensures TrimEnd(s + trail) == s
  {
    if trail == [] {
      assert s + trail == s;
    } else {
      var h := s + trail;
      assert h[|h| - 1] == trail[|trail| - 1];
      assert h[..|h| - 1] == s + trail[..|trail| - 1];
      TrimEndSkipsSpace(s, trail[..|trail| - 1]);
    }
  }

  /** A media type with white space around it holds no ';' and trims to itself. */
  lemma SurroundedMediaType(lead: string, t: string, trail: string)
    requires forall i | 0 <= i < |lead| :: IsJsSpace(lead[i])
    requires forall i | 0 <= i < |trail| :: IsJsSpace(trail[i])
    requires IsMediaType(t)
    ensures ';' !in lead + t + trail
    ensures Trim(lead + t + trail) == t
  {
    MediaTypeCharacters(t);
    var h := lead + t + trail;
    forall k | 0 <= k < |h| ensures h[k] != ';' {
      if k < |lead| { assert h[k] == lead[k]; }
      else if k < |lead| + |t| { assert h[k] == t[k - |lead|]; }
      else { assert h[k] == trail[k - |lead| - |t|]; }
    }
    assert h == lead + (t + trail);
    TrimStartSkipsSpace(lead, t + trail);
    TrimEndSkipsSpace(t, trail);
  }

  /** White space around a media type, before or after the parameters are cut, is
      trimmed away. */
  lemma MimeTypeIgnoresSurroundingSpace(lead: string, t: string, trail: string, params: string)
    requires forall i | 0 <= i < |lead| :: IsJsSpace(lead[i])
    requires forall i | 0 <= i < |trail| :: IsJsSpace(trail[i])
    requires IsMediaType(t)
    ensures MimeType(lead + t + trail) == Success(Lower(t))
    ensures MimeType(lead + t + trail + ";" + params) == Success(Lower(t))
  {
    var h := lead + t + trail;
    SurroundedMediaType(lead, t, trail);
    BeforeSemicolonOfParameters(h, params);
    assert Trim(BeforeSemicolon(h)) == t;
    assert Trim(BeforeSemicolon(h + ";" + params)) == t;
  }

  /** A lower-case media type, bare or followed by parameters, is its own mime type:
      the parameters are dropped. */
  lemma MimeTypeDropsParameters(base: string, params: string)
    requires IsMediaType(base) && IsLowerCase(base)
    ensures MimeType(base) == Success(base)
    ensures MimeType(base + ";" + params) == Success(base)
  {
    MimeTypeOfMediaType(base, params);
    LowerOfLowerCase(base);
  }

  lemma {:induction false} LowerOfLowerCase(s: string)
    requires IsLowerCase(s)
    ensures Lower(s) == s
  {
    if s != [] {
      var tail := s[1..];
      assert forall i :: 0 <= i < |tail| ==> tail[i] == s[i + 1];
      LowerOfLowerCase(tail);
    }
  }

  /** Parameters never change whether a type is text. */
  lemma IsTextIgnoresParameters(base: string, params: string)
    requires IsMediaType(base) && IsLowerCase(base)
    ensures IsText(base + ";" + params) == IsText(base) == Success(|base| >= 5 && base[..5] == "text/")
  {
    MimeTypeDropsParameters(base, params);
    assert IsText(base) == Success(|base| >= 5 && base[..5] == "text/");
  }
}
