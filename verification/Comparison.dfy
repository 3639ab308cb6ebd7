/** How the two validator classes relate: given the same rules, the same
    file by path and the same metadata they decide alike and report the same
    messages in the same order; they part ways on upload codes outside
    `Validator`'s table and on `isSended` in path mode. */
module Comparison {
  import opened Files
  import Strings
  import V = Validator
  import F = FileValidator

  /** A `Validator` message relabelled as a `FileValidator` message, bounds
      quoted as their decimal text. Upload messages are only relabelled and
      keep their code: the two classes do not report upload codes alike
      (`FileValidator` gives codes 1 and 2 the size-limit message), and only
      messages already in a list are translated. */
  function Translate(e: V.Err): F.Err
  {
    match e
    case UploadFailed(c) => F.UploadFailed(c)
    case NotImage => F.NotImage
    case TooNarrow(n) => F.TooNarrow(Strings.DecimalText(n))
    case WrongWidth(n) => F.WrongWidth(Strings.DecimalText(n))
    case TooWide(n) => F.TooWide(Strings.DecimalText(n))
    case TooShort(n) => F.TooShort(Strings.DecimalText(n))
    case WrongHeight(n) => F.WrongHeight(Strings.DecimalText(n))
    case TooTall(n) => F.TooTall(Strings.DecimalText(n))
    case TooBig(mb) => F.TooBig(mb)
    case BadExtension(allowed) => F.BadExtension(allowed)
  }

  function TranslateAll(errs: seq<V.Err>): (r: seq<F.Err>)
    ensures |r| == |errs|
    ensures forall i :: 0 <= i < |errs| ==> r[i] == Translate(errs[i])
  {
    seq(|errs|, i requires 0 <= i < |errs| => Translate(errs[i]))
  }

  lemma TranslateAllConcat(a: seq<V.Err>, b: seq<V.Err>)
    ensures TranslateAll(a + b) == TranslateAll(a) + TranslateAll(b)
  {
    assert forall i :: 0 <= i < |a + b| ==> TranslateAll(a + b)[i] == (TranslateAll(a) + TranslateAll(b))[i];
  }

  function TranslateOutcome(r: Outcome<V.Err>): Outcome<F.Err>
  {
    match r
    case Throws => Throws
    case Returned(ok, errs) => Returned(ok, TranslateAll(errs))
  }

  function AsRule(o: Option<nat>): Option<F.DimRule>
  {
    match o
    case None => None
    case Some(n) => Some(F.Num(n))
  }

  /** The rules array a `Validator` instance's setters amount to. */
  function RulesOf(v: V.State): F.Rules
  {
    F.Rules(
      AsRule(v.width), AsRule(v.minWidth), AsRule(v.maxWidth),
      AsRule(v.height), AsRule(v.minHeight), AsRule(v.maxHeight),
      v.size, v.exts, v.isImg)
  }

  /** A `FileValidator` instance given the same rules, the same file by path
      and the translated error list. */
  function Counterpart(v: V.State): F.State
  {
    var file := match v.file
      case None => F.NoFile
      case Some(f) => F.Local(f.path, f.ext);
    F.State(F.ExpandRules(RulesOf(v)), file, TranslateAll(v.errors))
  }

  /** Rules built from integers pass through `rules` unchanged, and for a
      consistent instance the derived `image` flag is `is_img`. */
  lemma ExpandKeepsIntegerRules(v: V.State)
    requires V.Consistent(v)
    ensures F.ExpandRules(RulesOf(v)) == RulesOf(v)
  {
  }

  lemma DimensionCheckAgrees(v: V.State, d: Dims, k: nat)
    requires 2 <= k < 8
    ensures F.DimensionCheck(RulesOf(v), d, k) == TranslateAll(V.DimensionCheck(v, d, k))
  {
  }

  lemma DimensionErrorsAgree(v: V.State, d: Dims)
    ensures F.DimensionErrors(RulesOf(v), d) == TranslateAll(V.DimensionErrors(v, d))
  {
    var r := RulesOf(v);
    forall k | 2 <= k < 8
      ensures F.DimensionCheck(r, d, k) == TranslateAll(V.DimensionCheck(v, d, k))
    {
      DimensionCheckAgrees(v, d, k);
    }
    var a, b, c := V.DimensionCheck(v, d, 2), V.DimensionCheck(v, d, 3), V.DimensionCheck(v, d, 4);
    var e, f, g := V.DimensionCheck(v, d, 5), V.DimensionCheck(v, d, 6), V.DimensionCheck(v, d, 7);
    TranslateAllConcat(a, b);
    TranslateAllConcat(a + b, c);
    TranslateAllConcat(a + b + c, e);
    TranslateAllConcat(a + b + c + e, f);
    TranslateAllConcat(a + b + c + e + f, g);
  }

  lemma ImageErrorsAgree(v: V.State, m: Metadata)
    requires v.isImg ==> m.image.Some?
    ensures F.ImageErrors(RulesOf(v), m) == TranslateAll(V.ImageErrors(v, m))
  {
    if v.isImg {
      DimensionErrorsAgree(v, m.image.value);
    }
  }

  lemma SizeErrorsAgree(v: V.State, m: Metadata)
    ensures F.SizeErrors(RulesOf(v), m) == TranslateAll(V.SizeErrors(v, m))
  {
  }

  lemma ExtensionErrorsAgree(v: V.State)
    requires v.file.Some?
    ensures F.ExtensionErrors(RulesOf(v), v.file.value.ext) == TranslateAll(V.ExtensionErrors(v))
  {
  }

  lemma CheckErrorsAgree(v: V.State, m: Metadata)
    requires V.Consistent(v) && v.file.Some?
    requires v.isImg ==> m.image.Some?
    ensures F.CheckErrors(RulesOf(v), v.file.value.ext, m) == TranslateAll(V.CheckErrors(v, m))
  {
    var i, z, x := V.ImageErrors(v, m), V.SizeErrors(v, m), V.ExtensionErrors(v);
    F.CheckErrorsParts(RulesOf(v), v.file.value.ext, m);
    V.CheckErrorsParts(v, m);
    ImageErrorsAgree(v, m);
    SizeErrorsAgree(v, m);
    ExtensionErrorsAgree(v);
    TranslateAllConcat(i, z);
    TranslateAllConcat(i + z, x);
  }

  /** In path mode, a consistent `Validator` and a `FileValidator` holding
      the same rules decide every file alike: both throw, or both return the
      same boolean with the same messages in the same order. */
  lemma PathModeAgreement(v: V.State, m: Metadata)
    requires V.Consistent(v) && v.uploadError.None?
    ensures F.Validate(Counterpart(v), m) == TranslateOutcome(V.Validate(v, m))
  {
    ExpandKeepsIntegerRules(v);
    var f := Counterpart(v);
    if V.Readable(v, m) && !(v.isImg && m.image.None?) {
      CheckErrorsAgree(v, m);
      TranslateAllConcat(v.errors, V.CheckErrors(v, m));
    } else if V.Readable(v, m) {
      TranslateAllConcat(v.errors, [V.NotImage]);
    }
  }

  /** Upload codes outside `Validator`'s table (5 and 8, say): `Validator`
      carries on to the file checks, while `FileValidator` stops with the
      numbered message. */
  lemma UnlistedCodeDiverges(v: V.State, f: F.State, u: Upload, extensionOf: string -> string, m: Metadata)
    requires u.error >= 3 && u.error !in V.UploadCodes
    ensures var v' := V.Apply(v, V.UploadedFile(u), extensionOf);
      !V.ShortCircuits(v') && (V.Validate(v', m).Throws? <==> !m.readable)
    ensures var f' := F.WithFile(f, u, extensionOf);
      F.Validate(f', m) == Returned(false, f.errors + [F.UploadFailed(u.error)])
  {
  }

  /** Codes in the table stop both classes with exactly one message. */
  lemma ListedCodeStopsBoth(v: V.State, f: F.State, u: Upload, extensionOf: string -> string, m: Metadata)
    requires u.error in V.UploadCodes
    ensures var v' := V.Apply(v, V.UploadedFile(u), extensionOf);
      V.Validate(v', m) == Returned(false, v.errors + [V.UploadFailed(u.error)])
    ensures var f' := F.WithFile(f, u, extensionOf);
      F.Validate(f', m) == Returned(false, f.errors + [F.UploadError(f')])
  {
    assert u.error > 0 by {
      assert u.error == 1 || u.error == 2 || u.error == 3 || u.error == 4 || u.error == 6 || u.error == 7;
    }
    ListedCodeStopsValidator(v, u, extensionOf, m);
    PositiveCodeStopsFileValidator(f, u, extensionOf, m);
  }

  lemma ListedCodeStopsValidator(v: V.State, u: Upload, extensionOf: string -> string, m: Metadata)
    requires u.error in V.UploadCodes
    ensures V.Validate(V.Apply(v, V.UploadedFile(u), extensionOf), m)
      == Returned(false, v.errors + [V.UploadFailed(u.error)])
  {
    var v' := V.Apply(v, V.UploadedFile(u), extensionOf);
    assert V.ShortCircuits(v');
    V.UploadErrorShortCircuits(v', m, m);
  }

  lemma PositiveCodeStopsFileValidator(f: F.State, u: Upload, extensionOf: string -> string, m: Metadata)
    requires u.error > 0
    ensures var f' := F.WithFile(f, u, extensionOf);
      F.Validate(f', m) == Returned(false, f.errors + [F.UploadError(f')])
  {
    var f' := F.WithFile(f, u, extensionOf);
    F.UploadErrorShortCircuits(f', m, m);
  }

  /** `isSended` in path mode: true for `Validator` (no code is stored),
      false for `FileValidator` (no descriptor is stored). */
  lemma PathModeIsSendedDiffers(path: string, extensionOf: string -> string)
    ensures V.IsSended(V.Build([V.File(path)], extensionOf))
    ensures !F.IsSended(F.WithPath(F.Fresh, path, extensionOf))
  {
    V.PathModeIsSended([V.File(path)], extensionOf);
  }
}
