/** The `Validator` class: rules set one by one through fluent setters, the
    file given either as a path or as an upload descriptor, and `validate`,
    which appends to the instance's error list and returns whether that list
    is empty. The filesystem and image-probe answers come in as `Metadata`. */
module Validator {
  import opened Files

  /** One message of the instance's error list, carrying the value it quotes. */
  datatype Err =
    | UploadFailed(code: int)        // the message of `code` in the upload-error table
    | NotImage
    | TooNarrow(min: nat)
    | WrongWidth(exact: nat)
    | TooWide(max: nat)
    | TooShort(min: nat)
    | WrongHeight(exact: nat)
    | TooTall(max: nat)
    | TooBig(mb: Option<nat>)
    | BadExtension(allowed: seq<string>)

  /** Position of the check that reports `e` in the fixed order of `validate`. */
  function Rank(e: Err): nat
  {
    match e
    case UploadFailed(_) => 0
    case NotImage => 1
    case TooNarrow(_) => 2
    case WrongWidth(_) => 3
    case TooWide(_) => 4
    case TooShort(_) => 5
    case WrongHeight(_) => 6
    case TooTall(_) => 7
    case TooBig(_) => 8
    case BadExtension(_) => 9
  }

  /** The file under validation: where it is read from and its extension. */
  datatype FileRef = FileRef(path: string, ext: string)

  /** The instance's fields; an unset field is None (PHP's null). */
  datatype State = State(
    minWidth: Option<nat>,
    width: Option<nat>,
    maxWidth: Option<nat>,
    minHeight: Option<nat>,
    height: Option<nat>,
    maxHeight: Option<nat>,
    isImg: bool,
    size: Option<nat>,
    exts: seq<string>,
    file: Option<FileRef>,
    uploadError: Option<int>,
    errors: seq<Err>)

  /** A newly constructed instance. */
  const Fresh: State := State(None, None, None, None, None, None, false, None, [], None, None, [])

  /** One fluent setter call. */
  datatype Call =
    | MinWidth(n: nat)
    | Width(n: nat)
    | MaxWidth(n: nat)
    | MinHeight(n: nat)
    | Height(n: nat)
    | MaxHeight(n: nat)
    | Size(mb: nat)
    | File(path: string)
    | UploadedFile(upload: Upload)
    | Exts(allowed: seq<string>)

  predicate SetsDimension(c: Call)
  {
    c.MinWidth? || c.Width? || c.MaxWidth? || c.MinHeight? || c.Height? || c.MaxHeight?
  }

  predicate DimensionSet(s: State)
  {
    s.minWidth.Some? || s.width.Some? || s.maxWidth.Some?
      || s.minHeight.Some? || s.height.Some? || s.maxHeight.Some?
  }

  /** The image flag is raised exactly when some dimension rule is set. */
  predicate Consistent(s: State)
  {
    s.isImg <==> DimensionSet(s)
  }

  /** The effect of one setter on the instance. The extension is taken, by
      `extensionOf`, from the path in path mode and from the submitted name
      (not the temporary path) in upload mode; `file` leaves a previously
      stored upload error code in place. */
  function Apply(s: State, c: Call, extensionOf: string -> string): (r: State)
    ensures r.errors == s.errors
    ensures SetsDimension(c) ==> r.isImg
    ensures !SetsDimension(c) ==> r.isImg == s.isImg
    ensures Consistent(s) ==> Consistent(r)
    ensures c.MinWidth? ==> r.minWidth == Some(c.n)
    ensures c.Width? ==> r.width == Some(c.n)
    ensures c.MaxWidth? ==> r.maxWidth == Some(c.n)
    ensures c.MinHeight? ==> r.minHeight == Some(c.n)
    ensures c.Height? ==> r.height == Some(c.n)
    ensures c.MaxHeight? ==> r.maxHeight == Some(c.n)
    ensures c.Exts? ==> r.exts == c.allowed
    ensures c.Size? ==> r.size == Some(c.mb) && r.file == s.file
    ensures c.File? ==> r.file == Some(FileRef(c.path, extensionOf(c.path))) && r.uploadError == s.uploadError
    ensures c.UploadedFile? ==>
      r.file == Some(FileRef(c.upload.tmpName, extensionOf(c.upload.name))) && r.uploadError == Some(c.upload.error)
    ensures !c.File? && !c.UploadedFile? ==> r.file == s.file && r.uploadError == s.uploadError
  {
    match c
    case MinWidth(n) => s.(minWidth := Some(n), isImg := true)
    case Width(n) => s.(width := Some(n), isImg := true)
    case MaxWidth(n) => s.(maxWidth := Some(n), isImg := true)
    case MinHeight(n) => s.(minHeight := Some(n), isImg := true)
    case Height(n) => s.(height := Some(n), isImg := true)
    case MaxHeight(n) => s.(maxHeight := Some(n), isImg := true)
    case Size(mb) => s.(size := Some(mb))
    case File(path) => s.(file := Some(FileRef(path, extensionOf(path))))
    case UploadedFile(u) =>
      s.(file := Some(FileRef(u.tmpName, extensionOf(u.name))), uploadError := Some(u.error))
    case Exts(allowed) => s.(exts := allowed)
  }

  /** A fresh instance after a chain of setter calls. */
  function Build(calls: seq<Call>, extensionOf: string -> string): (r: State)
    ensures r.errors == []
    ensures Consistent(r)
    ensures r.isImg <==> exists i :: 0 <= i < |calls| && SetsDimension(calls[i])
    ensures (forall i :: 0 <= i < |calls| ==> !calls[i].UploadedFile?) ==> r.uploadError.None?
    decreases |calls|
  {
    if |calls| == 0 then Fresh
    else
      var prefix := calls[..|calls| - 1];
      var r := Apply(Build(prefix, extensionOf), calls[|calls| - 1], extensionOf);
      assert forall i :: 0 <= i < |prefix| ==> prefix[i] == calls[i];
      r
  }

  /** Upload error codes that have a message; only these stop validation. */
  const UploadCodes: set<int> := {1, 2, 3, 4, 6, 7}

  predicate ShortCircuits(s: State)
  {
    s.uploadError.Some? && s.uploadError.value > 0 && s.uploadError.value in UploadCodes
  }

  /** A file is configured and the filesystem reports it readable. With no
      file the path is null, and `is_readable(null)` is false. */
  predicate Readable(s: State, m: Metadata)
  {
    s.file.Some? && m.readable
  }

  /** Whether dimension error `e` must be reported for an image of size `d`:
      its rule is set and violated (`<` for a minimum, `!==` for an exact
      value, `>` for a maximum). */
  predicate DimensionViolated(s: State, d: Dims, e: Err)
  {
    match e
    case TooNarrow(n) => s.minWidth == Some(n) && d.width < n
    case WrongWidth(n) => s.width == Some(n) && d.width != n
    case TooWide(n) => s.maxWidth == Some(n) && d.width > n
    case TooShort(n) => s.minHeight == Some(n) && d.height < n
    case WrongHeight(n) => s.height == Some(n) && d.height != n
    case TooTall(n) => s.maxHeight == Some(n) && d.height > n
    case _ => false
  }

  /** Whether `e` is an error the checks after the image probe must report. */
  predicate Violated(s: State, m: Metadata, e: Err)
  {
    match e
    case TooBig(mb) => mb == s.size && Oversized(m.bytes, mb)
    case BadExtension(allowed) =>
      allowed == s.exts && s.file.Some? && !ExtensionAllowed(s.file.value.ext, allowed)
    case UploadFailed(_) => false
    case NotImage => false
    case _ => s.isImg && m.image.Some? && DimensionViolated(s, m.image.value, e)
  }

  /** The dimension check at position `k` of the fixed order. */
  function DimensionCheck(s: State, d: Dims, k: nat): (r: seq<Err>)
    requires 2 <= k < 8
    ensures forall e :: e in r <==> DimensionViolated(s, d, e) && Rank(e) == k
    ensures Ascending(r, Rank) && RanksWithin(r, Rank, k, k + 1)
  {
    if k == 2 then (if s.minWidth.Some? then Check(d.width < s.minWidth.value, TooNarrow(s.minWidth.value)) else [])
    else if k == 3 then (if s.width.Some? then Check(d.width != s.width.value, WrongWidth(s.width.value)) else [])
    else if k == 4 then (if s.maxWidth.Some? then Check(d.width > s.maxWidth.value, TooWide(s.maxWidth.value)) else [])
    else if k == 5 then (if s.minHeight.Some? then Check(d.height < s.minHeight.value, TooShort(s.minHeight.value)) else [])
    else if k == 6 then (if s.height.Some? then Check(d.height != s.height.value, WrongHeight(s.height.value)) else [])
    else (if s.maxHeight.Some? then Check(d.height > s.maxHeight.value, TooTall(s.maxHeight.value)) else [])
  }

  /** The six dimension checks, each independent of the others. */
  function DimensionErrors(s: State, d: Dims): (r: seq<Err>)
    ensures forall e :: e in r <==> DimensionViolated(s, d, e)
    ensures Ascending(r, Rank) && RanksWithin(r, Rank, 2, 8)
  {
    var a := DimensionCheck(s, d, 2);
    var b := DimensionCheck(s, d, 3);
    var c := DimensionCheck(s, d, 4);
    var e := DimensionCheck(s, d, 5);
    var f := DimensionCheck(s, d, 6);
    var g := DimensionCheck(s, d, 7);
    AscendingConcat(a, b, Rank, 2, 3, 4);
    AscendingConcat(a + b, c, Rank, 2, 4, 5);
    AscendingConcat(a + b + c, e, Rank, 2, 5, 6);
    AscendingConcat(a + b + c + e, f, Rank, 2, 6, 7);
    AscendingConcat(a + b + c + e + f, g, Rank, 2, 7, 8);
    DimensionRanks(s, d);
    a + b + c + e + f + g
  }

  /** Only the six dimension errors can be dimension violations. */
  lemma DimensionRanks(s: State, d: Dims)
    ensures forall e :: DimensionViolated(s, d, e) ==> 2 <= Rank(e) < 8
  {
  }

  /** The dimension errors of an image, none when no image is required. */
  function ImageErrors(s: State, m: Metadata): (r: seq<Err>)
    requires s.isImg ==> m.image.Some?
    ensures forall x :: x in r <==> s.isImg && DimensionViolated(s, m.image.value, x)
    ensures Ascending(r, Rank) && RanksWithin(r, Rank, 2, 8)
  {
    if s.isImg then DimensionErrors(s, m.image.value) else []
  }

  /** The strict size check. */
  function SizeErrors(s: State, m: Metadata): (r: seq<Err>)
    ensures forall x :: x in r <==> Oversized(m.bytes, s.size) && x == TooBig(s.size)
    ensures Ascending(r, Rank) && RanksWithin(r, Rank, 8, 9)
  {
    CheckRanked(Oversized(m.bytes, s.size), TooBig(s.size), Rank);
    Check(Oversized(m.bytes, s.size), TooBig(s.size))
  }

  /** The extension check: exact membership in a non-empty allowed list. */
  function ExtensionErrors(s: State): (r: seq<Err>)
    requires s.file.Some?
    ensures forall x :: x in r <==> !ExtensionAllowed(s.file.value.ext, s.exts) && x == BadExtension(s.exts)
    ensures Ascending(r, Rank) && RanksWithin(r, Rank, 9, 10)
  {
    CheckRanked(!ExtensionAllowed(s.file.value.ext, s.exts), BadExtension(s.exts), Rank);
    Check(!ExtensionAllowed(s.file.value.ext, s.exts), BadExtension(s.exts))
  }

  /** Everything appended after the image probe: dimensions (for an image),
      then size, then extension. */
  function CheckErrors(s: State, m: Metadata): (r: seq<Err>)
    requires s.file.Some?
    requires s.isImg ==> m.image.Some?
    ensures forall e :: e in r <==> Violated(s, m, e)
    ensures Ascending(r, Rank) && RanksWithin(r, Rank, 2, 10)
  {
    var dims := ImageErrors(s, m);
    var size := SizeErrors(s, m);
    var ext := ExtensionErrors(s);
    AscendingConcat(dims, size, Rank, 2, 8, 9);
    AscendingConcat(dims + size, ext, Rank, 2, 9, 10);
    CheckErrorsMembers(s, m, dims, size, ext);
    dims + size + ext
  }

  /** The three groups of `CheckErrors` together report exactly the violations. */
  lemma CheckErrorsMembers(s: State, m: Metadata, dims: seq<Err>, size: seq<Err>, ext: seq<Err>)
    requires s.file.Some?
    requires s.isImg ==> m.image.Some?
    requires forall x :: x in dims <==> s.isImg && DimensionViolated(s, m.image.value, x)
    requires forall x :: x in size <==> Oversized(m.bytes, s.size) && x == TooBig(s.size)
    requires forall x :: x in ext <==> !ExtensionAllowed(s.file.value.ext, s.exts) && x == BadExtension(s.exts)
    ensures forall e :: e in dims + size + ext <==> Violated(s, m, e)
  {
    forall e
      ensures e in dims + size + ext <==> Violated(s, m, e)
    {
      assert e in dims + size + ext <==> e in dims || e in size || e in ext;
      if e.TooBig? {
        assert e !in dims && e !in ext;
      } else if e.BadExtension? {
        assert e !in dims && e !in size;
      } else {
        assert e !in size && e !in ext;
      }
    }
  }

  /** `validate`: the upload-error short circuit, the readability failure,
      the image-probe short circuit, then every remaining check appending
      independently. The result is true iff the whole list is empty. */
  function Validate(s: State, m: Metadata): (r: Outcome<Err>)
    ensures ShortCircuits(s) ==> r == Returned(false, s.errors + [UploadFailed(s.uploadError.value)])
    ensures !ShortCircuits(s) ==> (r.Throws? <==> !Readable(s, m))
    ensures r.Returned? ==> |s.errors| <= |r.errors| && r.errors[..|s.errors|] == s.errors
    ensures r.Returned? ==> (r.ok <==> r.errors == [])
    ensures !ShortCircuits(s) && Readable(s, m) && s.isImg && m.image.None? ==>
      r == Returned(false, s.errors + [NotImage])
    ensures !ShortCircuits(s) && Readable(s, m) && !(s.isImg && m.image.None?) ==>
      && r.Returned?
      && (forall e :: e in r.errors[|s.errors|..] <==> Violated(s, m, e))
      && Ascending(r.errors[|s.errors|..], Rank)
  {
    if ShortCircuits(s) then Returned(false, s.errors + [UploadFailed(s.uploadError.value)])
    else if !Readable(s, m) then Throws
    else if s.isImg && m.image.None? then Returned(false, s.errors + [NotImage])
    else
      var errs := s.errors + CheckErrors(s, m);
      assert errs[|s.errors|..] == CheckErrors(s, m);
      Returned(errs == [], errs)
  }

  /** The instance after `validate`; its `errors` field is what `errors()`
      returns. A throwing run leaves the list as it was. */
  function AfterValidate(s: State, m: Metadata): (r: State)
    ensures Validate(s, m).Throws? ==> r == s
    ensures Validate(s, m).Returned? ==> r.errors == Validate(s, m).errors
    ensures |s.errors| <= |r.errors| && r.errors[..|s.errors|] == s.errors
    ensures r.(errors := s.errors) == s
  {
    match Validate(s, m)
    case Throws => s
    case Returned(_, errs) => s.(errors := errs)
  }

  /** `isSended`: false only for the "no file selected" code 4. */
  function IsSended(s: State): (r: bool)
    ensures s.uploadError.None? ==> r
    ensures !r <==> s.uploadError == Some(4)
  {
    s.uploadError != Some(4)
  }

  /** A listed upload error code ends validation with its one message; the
      file's readability, image, size and extension are never looked at. */
  lemma UploadErrorShortCircuits(s: State, m: Metadata, other: Metadata)
    requires ShortCircuits(s)
    ensures Validate(s, m) == Validate(s, other)
    ensures Validate(s, m) == Returned(false, s.errors + [UploadFailed(s.uploadError.value)])
  {
  }

  /** The checks after the probe read only the rules and the extension. */
  predicate SameChecks(s: State, t: State)
  {
    && s.minWidth == t.minWidth && s.width == t.width && s.maxWidth == t.maxWidth
    && s.minHeight == t.minHeight && s.height == t.height && s.maxHeight == t.maxHeight
    && s.isImg == t.isImg && s.size == t.size && s.exts == t.exts
    && s.file.Some? && t.file.Some? && s.file.value.ext == t.file.value.ext
  }

  lemma CheckErrorsParts(s: State, m: Metadata)
    requires s.file.Some?
    requires s.isImg ==> m.image.Some?
    ensures CheckErrors(s, m) == ImageErrors(s, m) + SizeErrors(s, m) + ExtensionErrors(s)
  {
  }

  lemma CheckErrorsCongruent(s: State, t: State, m: Metadata)
    requires SameChecks(s, t)
    requires s.isImg ==> m.image.Some?
    ensures CheckErrors(s, m) == CheckErrors(t, m)
  {
    if s.isImg {
      var d := m.image.value;
      forall k | 2 <= k < 8
        ensures DimensionCheck(s, d, k) == DimensionCheck(t, d, k)
      {
      }
      assert DimensionErrors(s, d) == DimensionErrors(t, d);
    }
    assert ImageErrors(s, m) == ImageErrors(t, m);
    assert SizeErrors(s, m) == SizeErrors(t, m);
    assert ExtensionErrors(s) == ExtensionErrors(t);
  }

  /** A code outside the table (5, 8, a negative one) is ignored: validation
      proceeds exactly as if no upload error were stored. */
  lemma UnlistedCodeFallsThrough(s: State, m: Metadata)
    requires s.uploadError.Some? && s.uploadError.value !in UploadCodes
    ensures Validate(s, m) == Validate(s.(uploadError := None), m)
  {
    var t := s.(uploadError := None);
    if Readable(s, m) && !(s.isImg && m.image.None?) {
      CheckErrorsCongruent(s, t, m);
    }
  }

  /** An unreadable (or unset) file throws and leaves the error list as it was. */
  lemma UnreadableThrows(s: State, m: Metadata)
    requires !ShortCircuits(s) && !Readable(s, m)
    ensures Validate(s, m).Throws?
    ensures AfterValidate(s, m) == s
  {
  }

  /** When an image is required and the probe fails, "not a valid image" is
      the only error appended, whatever the size and extension. */
  lemma ProbeFailureStops(s: State, m: Metadata, bytes: nat, exts: seq<string>)
    requires !ShortCircuits(s) && Readable(s, m) && s.isImg && m.image.None?
    ensures Validate(s, m) == Returned(false, s.errors + [NotImage])
    ensures Validate(s.(exts := exts), m.(bytes := bytes)) == Validate(s, m)
  {
  }

  /** The size bound is strict: exactly `size` MiB passes, one byte more fails. */
  lemma SizeBoundary(s: State, m: Metadata, mb: nat)
    requires !ShortCircuits(s) && Readable(s, m) && !(s.isImg && m.image.None?)
    requires s.size == Some(mb) && m.bytes == mb * BytesPerMb
    ensures TooBig(Some(mb)) !in Validate(s, m).errors[|s.errors|..]
    ensures TooBig(Some(mb)) in Validate(s, m.(bytes := m.bytes + 1)).errors[|s.errors|..]
  {
    assert !Violated(s, m, TooBig(Some(mb)));
    assert Violated(s, m.(bytes := m.bytes + 1), TooBig(Some(mb)));
  }

  /** Without a size rule the bound is null * 1024 * 1024 = 0, so every
      non-empty file gets the size error. */
  lemma NoSizeRuleRejectsNonEmpty(s: State, m: Metadata)
    requires !ShortCircuits(s) && Readable(s, m) && !(s.isImg && m.image.None?)
    requires s.size.None? && m.bytes > 0
    ensures TooBig(None) in Validate(s, m).errors[|s.errors|..]
    ensures !Validate(s, m).ok
  {
  }

  /** In upload mode the temporary path plays no part in the decision
      beyond the metadata read from it: uploads that differ only in their
      temporary path validate alike. */
  lemma UploadTmpNameIrrelevant(s: State, u: Upload, tmp: string, extensionOf: string -> string, m: Metadata)
    ensures Validate(Apply(s, UploadedFile(u), extensionOf), m)
         == Validate(Apply(s, UploadedFile(u.(tmpName := tmp)), extensionOf), m)
  {
    var t := Apply(s, UploadedFile(u), extensionOf);
    var t' := Apply(s, UploadedFile(u.(tmpName := tmp)), extensionOf);
    assert t' == t.(file := Some(FileRef(tmp, extensionOf(u.name))));
    if !ShortCircuits(t) && Readable(t, m) && !(t.isImg && m.image.None?) {
      CheckErrorsCongruent(t, t', m);
    }
  }

  /** In upload mode the extension error is reported iff the allowed list is
      non-empty and does not contain, exactly, the submitted name's extension. */
  lemma UploadExtensionFromName(s: State, u: Upload, extensionOf: string -> string, m: Metadata)
    requires var t := Apply(s, UploadedFile(u), extensionOf);
      !ShortCircuits(t) && m.readable && !(t.isImg && m.image.None?)
    ensures var t := Apply(s, UploadedFile(u), extensionOf);
      (BadExtension(s.exts) in Validate(t, m).errors[|s.errors|..]
       <==> |s.exts| > 0 && extensionOf(u.name) !in s.exts)
  {
    var t := Apply(s, UploadedFile(u), extensionOf);
    assert Violated(t, m, BadExtension(s.exts)) <==> |s.exts| > 0 && extensionOf(u.name) !in s.exts;
  }

  /** Errors are never cleared: once a run has failed, every later run on
      the same instance fails too (or throws). */
  lemma FailureIsSticky(s: State, m: Metadata, next: Metadata)
    requires Validate(s, m).Returned? && !Validate(s, m).ok
    ensures var again := Validate(AfterValidate(s, m), next);
      again.Throws? || !again.ok
  {
  }

  /** An instance configured without `uploadedFile` always counts as sent. */
  lemma PathModeIsSended(calls: seq<Call>, extensionOf: string -> string)
    requires forall i :: 0 <= i < |calls| ==> !calls[i].UploadedFile?
    ensures IsSended(Build(calls, extensionOf))
  {
  }

  /** Rules `size(1)`, `exts(["png"])` and a readable 2 MiB `photo.jpg`: the
      size error, then the extension error. */
  lemma SizeThenExtension(extensionOf: string -> string)
    requires extensionOf("photo.jpg") == "jpg"
    ensures var s := Build([Size(1), Exts(["png"]), File("photo.jpg")], extensionOf);
      Validate(s, Metadata(true, None, 2 * BytesPerMb))
        == Returned(false, [TooBig(Some(1)), BadExtension(["png"])])
  {
    var calls := [Size(1), Exts(["png"]), File("photo.jpg")];
    assert calls[..2] == [Size(1), Exts(["png"])] && calls[..2][..1] == [Size(1)];
    assert Build([Size(1)], extensionOf) == Fresh.(size := Some(1));
    assert Build(calls[..2], extensionOf) == Fresh.(size := Some(1), exts := ["png"]);
    var s := Build(calls, extensionOf);
    assert s == Fresh.(size := Some(1), exts := ["png"], file := Some(FileRef("photo.jpg", "jpg")));
    var m := Metadata(true, None, 2 * BytesPerMb);
    assert CheckErrors(s, m) == [TooBig(Some(1)), BadExtension(["png"])] by {
      assert ImageErrors(s, m) == [];
      assert SizeErrors(s, m) == [TooBig(Some(1))];
      assert ExtensionErrors(s) == [BadExtension(["png"])];
    }
  }
}
