/** Worked instances of the model's general statements, taken from the doc
    comments and the unit tests of the repository. */
module Examples {
  import opened Wrappers
  import opened Js
  import opened ContentTypes
  import opened TypeRegistry
  import opened Conversion
  import opened Records
  import opened Storage
  import opened Fragments
  import opened GetById

  lemma TextHtmlIsMediaType()
    ensures IsMediaType("text/html") && IsLowerCase("text/html")
  {
    var s := "text/html";
    assert s[4] == '/';
    assert s[..4] == "text" && AllTokenChars("text");
    assert s[5..] == "html" && AllTokenChars("html");
  }

  /** "text/html; charset=utf-8" becomes "text/html". */
  lemma MimeTypeDropsCharset()
    ensures MimeType("text/html" + ";" + " charset=utf-8") == Success("text/html")
  {
    TextHtmlIsMediaType();
    MimeTypeDropsParameters("text/html", " charset=utf-8");
  }

  /** A type part that breaks the grammar throws. */
  lemma MimeTypeRejectsSpaceInType()
    ensures MimeType("xx" + " text/plain") == Failure(TypeError)
  {
    var h := "xx" + " text/plain";
    assert BeforeSemicolon(h) == h by { ContentTypes.IndexOfFindsFirst(h, ';'); }
    assert Trim(h) == h by { assert TrimStart(h) == h; assert TrimEnd(h) == h; }
    assert !IsMediaType(h) by {
      forall i | 0 < i < |h| - 1 && h[i] == '/' ensures !AllTokenChars(h[..i]) {
        assert h[..i][2] == ' ';
      }
    }
  }

  /** isSupportedType accepts a type with parameters, and anything that merely contains a listed type. */
  lemma SupportedByContainment()
    ensures IsSupportedType("text/plain" + "; charset=utf-8")
    ensures IsSupportedType("text/plain" + "-custom")
  {
    assert ValidTypes[0] == "text/plain";
    SupportedWithAnySuffix("text/plain", "; charset=utf-8");
    SupportedWithAnySuffix("text/plain", "-custom");
  }

  /** A listed type with its '/' at `slash` does not occur in application/pdf: the
      '/' of an occurrence would have to meet the only '/' of the value, and where it
      would, the second characters differ. */
  lemma AbsentFromPdf(i: nat, slash: nat)
    requires i < |ValidTypes| && slash < |ValidTypes[i]| && ValidTypes[i][slash] == '/'
    requires 11 - slash + |ValidTypes[i]| <= 15 ==> ValidTypes[i][1] != ("application" + "/" + "pdf")[12 - slash]
    ensures !Contains("application" + "/" + "pdf", ValidTypes[i])
  {
    var h := "application" + "/" + "pdf";
    var t := ValidTypes[i];
    ContainsIffOccurs(h, t);
    forall k | 0 <= k <= |h| - |t| ensures !OccursAt(t, h, k) {
      var window := h[k..k + |t|];
      if k + slash != 11 {
        assert window[slash] == h[k + slash] != '/';
      } else {
        assert window[1] == h[12 - slash];
      }
    }
  }

  /** application/pdf is not supported. */
  lemma PdfUnsupported()
    ensures !IsSupportedType("application" + "/" + "pdf")
  {
    forall i | 0 <= i < |ValidTypes| ensures !Contains("application" + "/" + "pdf", ValidTypes[i]) {
      if i < 4 { AbsentFromPdf(i, 4); }
      else if i < 7 { AbsentFromPdf(i, 11); }
      else { AbsentFromPdf(i, 5); }
    }
  }

  /** The constructor rejects an empty owner. */
  lemma EmptyOwnerRejected(gen: Fresh)
    ensures Construct(FragmentInput(Undefined, Str(""), Undefined, Undefined, Str("text/plain"), Undefined), gen)
      == Failure(Error("ownerId is required"))
  {
  }

  /** The constructor rejects a negative size. */
  lemma NegativeSizeRejected(gen: Fresh)
    ensures Construct(FragmentInput(Undefined, Str("user1"), Undefined, Undefined, Str("text/plain"), Num(-1.0)), gen)
      == Failure(Error("size cannot be negative"))
  {
    assert ValidTypes[0] == "text/plain";
    ListedTypesSupported("text/plain");
  }

  /** The constructor rejects an unsupported type. */
  lemma PdfRejected(gen: Fresh)
    ensures Construct(FragmentInput(Undefined, Str("user1"), Undefined, Undefined, Str("application" + "/" + "pdf"), Undefined), gen)
      == Failure(Error("invalid types throw"))
  {
    PdfUnsupported();
  }

  /** "abc.txt" is the id "abc" with the extension "txt"; "abc123" has no extension. */
  lemma SplitExamples()
    ensures SplitParam("abc" + "." + "txt") == ("abc", "txt")
    ensures SplitParam("abc" + "123") == ("abc" + "123", "")
  {
    SplitsAtLastDot("abc", "txt");
    NoDotNoExtension("abc" + "123");
  }

  /** An unknown id answers 404. */
  method UnknownIdNotFound(lookup: map<string, string>, lib: Libraries, gen: Fresh) returns (res: Response)
    ensures res.status == 404
  {
    var db := new Store();
    res := Handle(db, Str("user1"), "abc" + "123", lookup, lib, gen);
  }

  /** Creates a fragment of a listed type for user1 and gives it data (the POST route's steps). */
  method CreateWithData(t: string, bytes: seq<byte>, gen: Fresh, now: NonEmptyString)
    returns (db: Store, rec: FragmentRecord)
    requires t in ValidTypes
    ensures db.Valid() && rec.contentType == t
    ensures db.ReadFragment(Str("user1"), Str(gen.uuid)) == Some(rec)
    ensures db.ReadFragmentData(Str("user1"), Str(gen.uuid)) == Some(bytes)
  {
    ListedTypesSupported(t);
    var input := FragmentInput(Undefined, Str("user1"), Undefined, Undefined, Str(t), Undefined);
    ConstructFailures(input, gen);
    assert SizeAccepted(DefaultSize(input.size));
    db := new Store();
    var created := Fragment.New(input, gen);
    var f := created.value;
    var _ := f.SetData(db, Buffer(bytes), now, now);
    rec := f.Record();
  }

  /** A fragment of type `t` created with data and fetched with an extension that
      the lookup maps back to `t` answers 200 under `t`. */
  method FetchOwnType(t: string, ext: string, bytes: seq<byte>, lib: Libraries, gen: Fresh, now: NonEmptyString)
    returns (res: Response)
    requires t in ValidTypes[..4]
    requires ext != "" && '.' !in ext && '/' !in ext
    requires '.' !in gen.uuid && '/' !in gen.uuid
    ensures res.status == 200 && res.contentType == Some(t)
  {
    var lookup := map[ext := t];
    assert t in ValidTypes && t != "application/x-yaml" && t != "application/json";
    SplitsAtLastDot(gen.uuid, ext);
    var db, rec := CreateWithData(t, bytes, gen, now);
    IdentityConversionServed(rec, bytes, ext, lookup, lib);
    res := Handle(db, Str("user1"), gen.uuid + "." + ext, lookup, lib, gen);
  }

  /** .txt on a text/plain fragment and .md on a text/markdown one both answer 200. */
  method IdentityFetches(bytes: seq<byte>, lib: Libraries, gen: Fresh, now: NonEmptyString)
    returns (plain: Response, markdown: Response)
    requires '.' !in gen.uuid && '/' !in gen.uuid
    ensures plain.status == 200 && plain.contentType == Some("text/plain")
    ensures markdown.status == 200 && markdown.contentType == Some("text/markdown")
  {
    assert ValidTypes[..4][0] == "text/plain" && ValidTypes[..4][1] == "text/markdown";
    plain := FetchOwnType("text/plain", "txt", bytes, lib, gen, now);
    markdown := FetchOwnType("text/markdown", "md", bytes, lib, gen, now);
  }
}
