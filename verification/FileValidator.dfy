/** The `FileValidator` class: rules given at once as an array (with the
    "min:max" range form for width and height, and the derived `image` flag),
    the file given either as a path or as an upload descriptor, and
    `validate`, which appends to the instance's error list and returns
    whether that list is empty. The filesystem and image-probe answers come
    in as `Metadata`. */
module FileValidator {
  import opened Files
  import Strings

  /** A dimension rule value: an integer, or a string (a half of a range, or
      a string the caller passed). */
  datatype DimRule = Num(n: nat) | Str(text: string)

  /** The rule keys the class reads; an absent key is None (or the empty
      list, or false for `image`). */
  datatype Rules = Rules(
    width: Option<DimRule>,
    minWidth: Option<DimRule>,
    maxWidth: Option<DimRule>,
    height: Option<DimRule>,
    minHeight: Option<DimRule>,
    maxHeight: Option<DimRule>,
    weight: Option<nat>,
    extensions: seq<string>,
    image: bool)

  /** The rules of an instance whose `rules` was never called (PHP's null). */
  const NoRules: Rules := Rules(None, None, None, None, None, None, None, [], false)

  /** One message of the instance's error list, carrying the text it quotes. */
  datatype Err =
    | UploadTooLarge(weight: Option<nat>)   // upload codes 1 and 2
    | UploadFailed(code: int)               // any other positive code, quoted by number
    | NotImage
    | TooNarrow(min: string)
    | WrongWidth(exact: string)
    | TooWide(max: string)
    | TooShort(min: string)
    | WrongHeight(exact: string)
    | TooTall(max: string)
    | TooBig(weight: Option<nat>)
    | BadExtension(allowed: seq<string>)

  /** Position of the check that reports `e` in the fixed order of `validate`. */
  function Rank(e: Err): nat
  {
    match e
    case UploadTooLarge(_) => 0
    case UploadFailed(_) => 0
    case NotImage => 1
    case TooNarrow(_) => 2
    case WrongWidth(_) => 3
    case TooWide(_) => 4
    case TooShort(_) => 5
    case WrongHeight(_) => 6
    case TooTall(_) => 7
    case TooBig(_) => 8
    case BadExtension(_) => 9
  }

  /** The file under validation. `Local` comes from `path`, `Uploaded` from
      `file` and keeps the whole descriptor as `info`. */
  datatype FileRef =
    | NoFile
    | Local(path: string, ext: string)
    | Uploaded(path: string, ext: string, info: Upload)

  datatype State = State(rules: Rules, file: FileRef, errors: seq<Err>)

  /** A newly constructed instance. */
  const Fresh: State := State(NoRules, NoFile, [])

  // ---------------------------------------------------------------- rules

  /** `text` starts with `a`, a colon and `b`, after which comes another
      colon or the end: what `explode(':', text)` yields as its first two pieces. */
  predicate FirstTwoPieces(text: string, a: string, b: string)
  {
    && ':' !in a && ':' !in b
    && |a| + 1 + |b| <= |text|
    && text[..|a| + 1 + |b|] == a + [':'] + b
    && (|a| + 1 + |b| == |text| || text[|a| + 1 + |b|] == ':')
  }

  /** Splitting at the first colon: the first piece is everything before it,
      and the first two pieces are laid out as `FirstTwoPieces` says. */
  lemma SplitAtFirstColon(t: string, i: nat)
    requires Strings.IndexOf(t, ':') == Some(i)
    ensures var parts := Strings.Split(t, ':');
      |parts| >= 2 && parts[0] == t[..i] && FirstTwoPieces(t, parts[0], parts[1])
  {
    var tail := t[i + 1..];
    var rest := Strings.Split(tail, ':');
    assert Strings.Split(t, ':') == [t[..i]] + rest;
    assert t == t[..i] + [':'] + tail;
    PiecesLayout(t, t[..i], tail, rest[0]);
  }

  /** A colon-free `a`, a colon, then a colon-free prefix `b` of `tail` that
      ends at a colon or at the end: the first two pieces. */
  lemma PiecesLayout(t: string, a: string, tail: string, b: string)
    requires t == a + [':'] + tail
    requires ':' !in a && ':' !in b
    requires |b| <= |tail| && tail[..|b|] == b
    requires |b| == |tail| || tail[|b|] == ':'
    ensures FirstTwoPieces(t, a, b)
  {
    assert t[..|a| + 1 + |b|] == a + [':'] + tail[..|b|];
    assert |a| + 1 + |b| < |t| ==> t[|a| + 1 + |b|] == tail[|b|];
  }

  /** The halves of a range rule: the rule is a string in which `strpos`
      finds a colon at a position > 0 (0 and false are both falsy), and the
      halves are the first two pieces of `explode(':', …)`. */
  function RangeHalves(rule: Option<DimRule>): (r: Option<(string, string)>)
    ensures r.Some? <==> rule.Some? && rule.value.Str? && ':' in rule.value.text && rule.value.text[0] != ':'
    ensures r.Some? ==> |r.value.0| > 0 && FirstTwoPieces(rule.value.text, r.value.0, r.value.1)
  {
    match rule
    case Some(Str(t)) =>
      (match Strings.IndexOf(t, ':')
       case Some(i) =>
         if i > 0 then
           var parts := Strings.Split(t, ':');
           SplitAtFirstColon(t, i);
           Some((parts[0], parts[1]))
         else None
       case None => None)
    case _ => None
  }

  /** Any dimension key is present. */
  predicate ImageRuleSet(r: Rules)
  {
    r.height.Some? || r.minHeight.Some? || r.maxHeight.Some?
      || r.width.Some? || r.minWidth.Some? || r.maxWidth.Some?
  }

  /** `rules`: a range `width` becomes `min_width` and `max_width` (and the
      `width` key goes), likewise for height; then `image` is raised if any
      dimension key is present. A caller-supplied `image` is never lowered. */
  function ExpandRules(raw: Rules): (r: Rules)
    ensures RangeHalves(raw.width).Some? ==>
      && r.width.None?
      && r.minWidth == Some(Str(RangeHalves(raw.width).value.0))
      && r.maxWidth == Some(Str(RangeHalves(raw.width).value.1))
    ensures RangeHalves(raw.width).None? ==>
      r.width == raw.width && r.minWidth == raw.minWidth && r.maxWidth == raw.maxWidth
    ensures RangeHalves(raw.height).Some? ==>
      && r.height.None?
      && r.minHeight == Some(Str(RangeHalves(raw.height).value.0))
      && r.maxHeight == Some(Str(RangeHalves(raw.height).value.1))
    ensures RangeHalves(raw.height).None? ==>
      r.height == raw.height && r.minHeight == raw.minHeight && r.maxHeight == raw.maxHeight
    ensures r.image <==> raw.image || ImageRuleSet(r)
    ensures r.weight == raw.weight && r.extensions == raw.extensions
  {
    var w :=
      match RangeHalves(raw.width)
      case Some((lo, hi)) => raw.(width := None, minWidth := Some(Str(lo)), maxWidth := Some(Str(hi)))
      case None => raw;
    var h :=
      match RangeHalves(raw.height)
      case Some((lo, hi)) => w.(height := None, minHeight := Some(Str(lo)), maxHeight := Some(Str(hi)))
      case None => w;
    if ImageRuleSet(h) then h.(image := true) else h
  }

  // ---------------------------------------------------------------- setters

  function WithRules(s: State, raw: Rules): (r: State)
    ensures r.rules == ExpandRules(raw) && r.file == s.file && r.errors == s.errors
  {
    s.(rules := ExpandRules(raw))
  }

  /** `path`: the extension is taken from the path itself, and any upload
      descriptor given before is dropped. */
  function WithPath(s: State, path: string, extensionOf: string -> string): (r: State)
    ensures r.file.Local? && r.file.path == path && r.file.ext == extensionOf(path)
    ensures r.rules == s.rules && r.errors == s.errors
  {
    s.(file := Local(path, extensionOf(path)))
  }

  /** `file`: the file is read from the temporary path, but the extension is
      taken from the submitted name. */
  function WithFile(s: State, u: Upload, extensionOf: string -> string): (r: State)
    ensures r.file.Uploaded? && r.file.info == u
    ensures r.file.path == u.tmpName && r.file.ext == extensionOf(u.name)
    ensures r.rules == s.rules && r.errors == s.errors
  {
    s.(file := Uploaded(u.tmpName, extensionOf(u.name), u))
  }

  // ---------------------------------------------------------------- validate

  /** The text a rule value interpolates to in a message. */
  function Render(rule: DimRule): string
  {
    match rule
    case Num(n) => Strings.DecimalText(n)
    case Str(t) => t
  }

  /** The number a rule value is compared as by `<` and `>`. */
  function Value(rule: DimRule): nat
  {
    match rule
    case Num(n) => n
    case Str(t) => Strings.NumericValue(t)
  }

  /** `$dimension !== $rule`: an integer never strictly equals a string. */
  predicate Differs(dimension: nat, rule: DimRule)
  {
    match rule
    case Num(n) => dimension != n
    case Str(_) => true
  }

  /** Whether dimension error `e` must be reported for an image of size `d`. */
  predicate DimensionViolated(r: Rules, d: Dims, e: Err)
  {
    match e
    case TooNarrow(t) => r.minWidth.Some? && t == Render(r.minWidth.value) && d.width < Value(r.minWidth.value)
    case WrongWidth(t) => r.width.Some? && t == Render(r.width.value) && Differs(d.width, r.width.value)
    case TooWide(t) => r.maxWidth.Some? && t == Render(r.maxWidth.value) && d.width > Value(r.maxWidth.value)
    case TooShort(t) => r.minHeight.Some? && t == Render(r.minHeight.value) && d.height < Value(r.minHeight.value)
    case WrongHeight(t) => r.height.Some? && t == Render(r.height.value) && Differs(d.height, r.height.value)
    case TooTall(t) => r.maxHeight.Some? && t == Render(r.maxHeight.value) && d.height > Value(r.maxHeight.value)
    case _ => false
  }

  /** Whether `e` is an error the checks after the image probe must report
      for a readable file with extension `ext`. */
  predicate Violated(r: Rules, ext: string, m: Metadata, e: Err)
  {
    match e
    case TooBig(w) => w == r.weight && Oversized(m.bytes, w)
    case BadExtension(allowed) => allowed == r.extensions && !ExtensionAllowed(ext, allowed)
    case UploadTooLarge(_) => false
    case UploadFailed(_) => false
    case NotImage => false
    case _ => r.image && m.image.Some? && DimensionViolated(r, m.image.value, e)
  }

  /** The dimension check at position `k` of the fixed order. */
  function DimensionCheck(r: Rules, d: Dims, k: nat): (errs: seq<Err>)
    requires 2 <= k < 8
    ensures forall e :: e in errs <==> DimensionViolated(r, d, e) && Rank(e) == k
    ensures Ascending(errs, Rank) && RanksWithin(errs, Rank, k, k + 1)
  {
    if k == 2 then
      (if r.minWidth.Some? then Check(d.width < Value(r.minWidth.value), TooNarrow(Render(r.minWidth.value))) else [])
    else if k == 3 then
      (if r.width.Some? then Check(Differs(d.width, r.width.value), WrongWidth(Render(r.width.value))) else [])
    else if k == 4 then
      (if r.maxWidth.Some? then Check(d.width > Value(r.maxWidth.value), TooWide(Render(r.maxWidth.value))) else [])
    else if k == 5 then
      (if r.minHeight.Some? then Check(d.height < Value(r.minHeight.value), TooShort(Render(r.minHeight.value))) else [])
    else if k == 6 then
      (if r.height.Some? then Check(Differs(d.height, r.height.value), WrongHeight(Render(r.height.value))) else [])
    else
      (if r.maxHeight.Some? then Check(d.height > Value(r.maxHeight.value), TooTall(Render(r.maxHeight.value))) else [])
  }

  /** Only the six dimension errors can be dimension violations. */
  lemma DimensionRanks(r: Rules, d: Dims)
    ensures forall e :: DimensionViolated(r, d, e) ==> 2 <= Rank(e) < 8
  {
  }

  /** The six dimension checks, each independent of the others. */
  function DimensionErrors(r: Rules, d: Dims): (errs: seq<Err>)
    ensures forall e :: e in errs <==> DimensionViolated(r, d, e)
    ensures Ascending(errs, Rank) && RanksWithin(errs, Rank, 2, 8)
  {
    var a := DimensionCheck(r, d, 2);
    var b := DimensionCheck(r, d, 3);
    var c := DimensionCheck(r, d, 4);
    var e := DimensionCheck(r, d, 5);
    var f := DimensionCheck(r, d, 6);
    var g := DimensionCheck(r, d, 7);
    AscendingConcat(a, b, Rank, 2, 3, 4);
    AscendingConcat(a + b, c, Rank, 2, 4, 5);
    AscendingConcat(a + b + c, e, Rank, 2, 5, 6);
    AscendingConcat(a + b + c + e, f, Rank, 2, 6, 7);
    AscendingConcat(a + b + c + e + f, g, Rank, 2, 7, 8);
    DimensionRanks(r, d);
    a + b + c + e + f + g
  }

  function ImageErrors(r: Rules, m: Metadata): (errs: seq<Err>)
    requires r.image ==> m.image.Some?
    ensures forall x :: x in errs <==> r.image && DimensionViolated(r, m.image.value, x)
    ensures Ascending(errs, Rank) && RanksWithin(errs, Rank, 2, 8)
  {
    if r.image then DimensionErrors(r, m.image.value) else []
  }

  /** The strict size check against `weight` megabytes. */
  function SizeErrors(r: Rules, m: Metadata): (errs: seq<Err>)
    ensures forall x :: x in errs <==> Oversized(m.bytes, r.weight) && x == TooBig(r.weight)
    ensures Ascending(errs, Rank) && RanksWithin(errs, Rank, 8, 9)
  {
    CheckRanked(Oversized(m.bytes, r.weight), TooBig(r.weight), Rank);
    Check(Oversized(m.bytes, r.weight), TooBig(r.weight))
  }

  /** The extension check: exact membership in a non-empty `extensions`. */
  function ExtensionErrors(r: Rules, ext: string): (errs: seq<Err>)
    ensures forall x :: x in errs <==> !ExtensionAllowed(ext, r.extensions) && x == BadExtension(r.extensions)
    ensures Ascending(errs, Rank) && RanksWithin(errs, Rank, 9, 10)
  {
    CheckRanked(!ExtensionAllowed(ext, r.extensions), BadExtension(r.extensions), Rank);
    Check(!ExtensionAllowed(ext, r.extensions), BadExtension(r.extensions))
  }

  /** Everything appended after the image probe, in check order. */
  function CheckErrors(r: Rules, ext: string, m: Metadata): (errs: seq<Err>)
    requires r.image ==> m.image.Some?
    ensures forall e :: e in errs <==> Violated(r, ext, m, e)
    ensures Ascending(errs, Rank) && RanksWithin(errs, Rank, 2, 10)
  {
    var dims := ImageErrors(r, m);
    var size := SizeErrors(r, m);
    var exts := ExtensionErrors(r, ext);
    AscendingConcat(dims, size, Rank, 2, 8, 9);
    AscendingConcat(dims + size, exts, Rank, 2, 9, 10);
    CheckErrorsMembers(r, ext, m, dims, size, exts);
    dims + size + exts
  }

  lemma CheckErrorsMembers(r: Rules, ext: string, m: Metadata, dims: seq<Err>, size: seq<Err>, exts: seq<Err>)
    requires r.image ==> m.image.Some?
    requires forall x :: x in dims <==> r.image && DimensionViolated(r, m.image.value, x)
    requires forall x :: x in size <==> Oversized(m.bytes, r.weight) && x == TooBig(r.weight)
    requires forall x :: x in exts <==> !ExtensionAllowed(ext, r.extensions) && x == BadExtension(r.extensions)
    ensures forall e :: e in dims + size + exts <==> Violated(r, ext, m, e)
  {
    forall e
      ensures e in dims + size + exts <==> Violated(r, ext, m, e)
    {
      assert e in dims + size + exts <==> e in dims || e in size || e in exts;
      if e.TooBig? {
        assert e !in dims && e !in exts;
      } else if e.BadExtension? {
        assert e !in dims && e !in size;
      } else {
        assert e !in size && e !in exts;
      }
    }
  }

  /** An upload descriptor with a positive error code: validation stops there. */
  predicate ShortCircuits(s: State)
  {
    s.file.Uploaded? && s.file.info.error > 0
  }

  /** The one message of an upload failure: the size message for codes 1
      and 2, the numbered message for every other positive code. */
  function UploadError(s: State): (e: Err)
    requires ShortCircuits(s)
    ensures s.file.info.error < 3 ==> e == UploadTooLarge(s.rules.weight)
    ensures s.file.info.error >= 3 ==> e == UploadFailed(s.file.info.error)
  {
    if s.file.info.error < 3 then UploadTooLarge(s.rules.weight) else UploadFailed(s.file.info.error)
  }

  /** A file is configured and the filesystem reports it readable. With no
      file the path is null, and `is_readable(null)` is false. */
  predicate Readable(s: State, m: Metadata)
  {
    !s.file.NoFile? && m.readable
  }

  /** `validate`. */
  function Validate(s: State, m: Metadata): (r: Outcome<Err>)
    ensures ShortCircuits(s) ==> r == Returned(false, s.errors + [UploadError(s)])
    ensures !ShortCircuits(s) ==> (r.Throws? <==> !Readable(s, m))
    ensures r.Returned? ==> |s.errors| <= |r.errors| && r.errors[..|s.errors|] == s.errors
    ensures r.Returned? ==> (r.ok <==> r.errors == [])
    ensures !ShortCircuits(s) && Readable(s, m) && s.rules.image && m.image.None? ==>
      r == Returned(false, s.errors + [NotImage])
    ensures !ShortCircuits(s) && Readable(s, m) && !(s.rules.image && m.image.None?) ==>
      && r.Returned?
      && (forall e :: e in r.errors[|s.errors|..] <==> Violated(s.rules, s.file.ext, m, e))
      && Ascending(r.errors[|s.errors|..], Rank)
  {
    if ShortCircuits(s) then Returned(false, s.errors + [UploadError(s)])
    else if !Readable(s, m) then Throws
    else if s.rules.image && m.image.None? then Returned(false, s.errors + [NotImage])
    else
      var added := CheckErrors(s.rules, s.file.ext, m);
      var errs := s.errors + added;
      assert errs[|s.errors|..] == added;
      Returned(errs == [], errs)
  }

  /** The instance after `validate`; its `errors` field is what `errors()`
      returns. A throwing run leaves the list as it was. */
  function AfterValidate(s: State, m: Metadata): (r: State)
    ensures Validate(s, m).Throws? ==> r == s
    ensures Validate(s, m).Returned? ==> r.errors == Validate(s, m).errors
    ensures |s.errors| <= |r.errors| && r.errors[..|s.errors|] == s.errors
    ensures r.(errors := s.errors) == s
  {
    match Validate(s, m)
    case Throws => s
    case Returned(_, errs) => s.(errors := errs)
  }

  /** `isSended`: only an upload descriptor whose code is not 4 counts as sent. */
  function IsSended(s: State): (r: bool)
    ensures !s.file.Uploaded? ==> !r
    ensures s.file.Uploaded? ==> (r <==> s.file.info.error != 4)
  {
    s.file.Uploaded? && s.file.info.error != 4
  }

  // ---------------------------------------------------------------- properties

  /** No colon occurs among the first `|a|` characters of a text that
      starts with the colon-free `a`. */
  lemma ColonFreePrefix(text: string, a: string)
    requires |a| <= |text| && text[..|a|] == a && ':' !in a
    ensures forall i :: 0 <= i < |a| ==> text[i] != ':'
  {
    forall i | 0 <= i < |a|
      ensures text[i] != ':'
    {
      assert text[i] == a[i] && a[i] in a;
    }
  }

  /** A colon-free prefix that ends at a colon or at the end of the text
      is determined by the text. */
  lemma PieceUnique(text: string, a: string, x: string)
    requires |a| <= |text| && text[..|a|] == a && ':' !in a
    requires |x| <= |text| && text[..|x|] == x && ':' !in x
    requires |a| == |text| || text[|a|] == ':'
    requires |x| == |text| || text[|x|] == ':'
    ensures a == x
  {
    ColonFreePrefix(text, a);
    ColonFreePrefix(text, x);
    assert |a| == |x|;
  }

  /** What follows the first piece and its colon starts with the second piece. */
  lemma SecondPieceAfterFirst(text: string, a: string, b: string)
    requires FirstTwoPieces(text, a, b)
    ensures var u := text[|a| + 1..];
      |b| <= |u| && u[..|b|] == b && (|b| == |u| || u[|b|] == ':')
  {
    var n := |a| + 1;
    assert text[n..][..|b|] == text[..n + |b|][n..];
    assert (a + [':'] + b)[n..] == b;
  }

  /** Two readings of the first two pieces of one text agree. */
  lemma FirstTwoPiecesUnique(text: string, a: string, b: string, x: string, y: string)
    requires FirstTwoPieces(text, a, b) && FirstTwoPieces(text, x, y)
    ensures a == x && b == y
  {
    assert text[..|a| + 1 + |b|][..|a|] == a && text[..|x| + 1 + |y|][..|x|] == x;
    assert text[|a|] == ':' && text[|x|] == ':';
    PieceUnique(text, a, x);
    SecondPieceAfterFirst(text, a, b);
    SecondPieceAfterFirst(text, x, y);
    PieceUnique(text[|a| + 1..], b, y);
  }

  /** `width = "a:b"` with a non-empty colon-free `a` and colon-free `b`
      becomes `min_width = a`, `max_width = b`; the `width` key goes and an
      image is required. */
  lemma RangeSugarSplits(raw: Rules, a: string, b: string)
    requires |a| > 0 && ':' !in a && ':' !in b
    requires raw.width == Some(Str(a + [':'] + b))
    ensures var r := ExpandRules(raw);
      r.width.None? && r.minWidth == Some(Str(a)) && r.maxWidth == Some(Str(b)) && r.image
  {
    var t := a + [':'] + b;
    assert t[|a|] == ':' && t[0] == a[0];
    assert t[..|a| + 1 + |b|] == t;
    assert FirstTwoPieces(t, a, b);
    var h := RangeHalves(raw.width);
    FirstTwoPiecesUnique(t, a, b, h.value.0, h.value.1);
  }

  /** A third piece (`"a:b:c"`) is dropped: only the first two become bounds. */
  lemma RangeSugarDropsRest(raw: Rules, a: string, b: string, rest: string)
    requires |a| > 0 && ':' !in a && ':' !in b
    requires raw.width == Some(Str(a + [':'] + b + [':'] + rest))
    ensures var r := ExpandRules(raw);
      r.width.None? && r.minWidth == Some(Str(a)) && r.maxWidth == Some(Str(b))
  {
    var t := a + [':'] + b + [':'] + rest;
    assert t[|a|] == ':' && t[0] == a[0];
    assert t[..|a| + 1 + |b|] == a + [':'] + b;
    assert t[|a| + 1 + |b|] == ':';
    assert FirstTwoPieces(t, a, b);
    var h := RangeHalves(raw.width);
    FirstTwoPiecesUnique(t, a, b, h.value.0, h.value.1);
  }

  /** A width with its colon first (`":200"`), with no colon, or given as a
      number, is left as an exact `width` rule. */
  lemma NoRangeKeepsWidth(raw: Rules)
    requires raw.width.Some?
    requires raw.width.value.Num? || ':' !in raw.width.value.text || raw.width.value.text[0] == ':'
    ensures ExpandRules(raw).width == raw.width
    ensures ExpandRules(raw).minWidth == raw.minWidth && ExpandRules(raw).maxWidth == raw.maxWidth
    ensures ExpandRules(raw).image
  {
  }

  /** Expansion keeps "some dimension key is present", so `image` ends up
      true iff the caller set it or gave any dimension rule. */
  lemma ImageFlagIffDimensionRule(raw: Rules)
    ensures ExpandRules(raw).image <==> raw.image || ImageRuleSet(raw)
  {
    var r := ExpandRules(raw);
    assert ImageRuleSet(r) <==> ImageRuleSet(raw) by {
      if RangeHalves(raw.width).Some? {
        assert r.minWidth.Some? && raw.width.Some?;
      }
      if RangeHalves(raw.height).Some? {
        assert r.minHeight.Some? && raw.height.Some?;
      }
    }
  }

  /** Any positive upload code ends validation with one message: the size
      message for codes 1 and 2, the numbered one for the rest. Readability,
      image, size and extension are never looked at. */
  lemma UploadErrorShortCircuits(s: State, m: Metadata, other: Metadata)
    requires s.file.Uploaded? && s.file.info.error > 0
    ensures Validate(s, m) == Validate(s, other)
    ensures s.file.info.error <= 2 ==> Validate(s, m) == Returned(false, s.errors + [UploadTooLarge(s.rules.weight)])
    ensures s.file.info.error >= 3 ==> Validate(s, m) == Returned(false, s.errors + [UploadFailed(s.file.info.error)])
  {
  }

  /** In path mode there is no descriptor: no code is consulted, and the
      file does not count as sent, even after an earlier `file` call. */
  lemma PathModeIgnoresCodes(s: State, path: string, extensionOf: string -> string, m: Metadata)
    ensures !ShortCircuits(WithPath(s, path, extensionOf))
    ensures Validate(WithPath(s, path, extensionOf), m).Throws? <==> !m.readable
    ensures !IsSended(WithPath(s, path, extensionOf))
  {
  }

  /** An unreadable (or unset) file throws and leaves the error list as it was. */
  lemma UnreadableThrows(s: State, m: Metadata)
    requires !ShortCircuits(s) && !Readable(s, m)
    ensures Validate(s, m).Throws?
    ensures AfterValidate(s, m) == s
  {
  }

  /** When an image is required and the probe fails, "not a valid image" is
      the only error appended, whatever the size and extension. */
  lemma ProbeFailureStops(s: State, m: Metadata, bytes: nat, extensions: seq<string>)
    requires !ShortCircuits(s) && Readable(s, m) && s.rules.image && m.image.None?
    ensures Validate(s, m) == Returned(false, s.errors + [NotImage])
    ensures Validate(s.(rules := s.rules.(extensions := extensions)), m.(bytes := bytes)) == Validate(s, m)
  {
  }

  /** The size bound is strict: exactly `weight` MiB passes, one byte more fails. */
  lemma SizeBoundary(s: State, m: Metadata, mb: nat)
    requires !ShortCircuits(s) && Readable(s, m) && !(s.rules.image && m.image.None?)
    requires s.rules.weight == Some(mb) && m.bytes == mb * BytesPerMb
    ensures TooBig(Some(mb)) !in Validate(s, m).errors[|s.errors|..]
    ensures TooBig(Some(mb)) in Validate(s, m.(bytes := m.bytes + 1)).errors[|s.errors|..]
  {
    assert !Violated(s.rules, s.file.ext, m, TooBig(Some(mb)));
    assert Violated(s.rules, s.file.ext, m.(bytes := m.bytes + 1), TooBig(Some(mb)));
  }

  /** Without a `weight` rule the bound is null * 1024 * 1024 = 0, so every
      non-empty file gets the size error. */
  lemma NoSizeRuleRejectsNonEmpty(s: State, m: Metadata)
    requires !ShortCircuits(s) && Readable(s, m) && !(s.rules.image && m.image.None?)
    requires s.rules.weight.None? && m.bytes > 0
    ensures TooBig(None) in Validate(s, m).errors[|s.errors|..]
    ensures !Validate(s, m).ok
  {
  }

  /** In upload mode the extension error is reported iff `extensions` is
      non-empty and does not contain, exactly, the submitted name's extension. */
  lemma UploadExtensionFromName(s: State, u: Upload, extensionOf: string -> string, m: Metadata)
    requires u.error <= 0 && m.readable && !(s.rules.image && m.image.None?)
    ensures var t := WithFile(s, u, extensionOf);
      (BadExtension(s.rules.extensions) in Validate(t, m).errors[|s.errors|..]
       <==> |s.rules.extensions| > 0 && extensionOf(u.name) !in s.rules.extensions)
  {
    var t := WithFile(s, u, extensionOf);
    assert Violated(t.rules, t.file.ext, m, BadExtension(s.rules.extensions))
      <==> |s.rules.extensions| > 0 && extensionOf(u.name) !in s.rules.extensions;
  }

  /** Errors are never cleared: once a run has failed, every later run on
      the same instance fails too (or throws). */
  lemma FailureIsSticky(s: State, m: Metadata, next: Metadata)
    requires Validate(s, m).Returned? && !Validate(s, m).ok
    ensures var again := Validate(AfterValidate(s, m), next);
      again.Throws? || !again.ok
  {
  }

  lemma DigitsHaveNoColon(t: string)
    requires Strings.AllDigits(t)
    ensures ':' !in t
  {
    forall i | 0 <= i < |t|
      ensures t[i] != ':'
    {
      assert Strings.IsDigit(t[i]);
    }
  }

  /** Range sugar of two decimal numbers expands to their texts as bounds. */
  lemma ExpandDecimalRange(base: Rules, a: nat, b: nat)
    ensures
      var ta, tb := Strings.DecimalText(a), Strings.DecimalText(b);
      var sugar := base.(width := Some(Str(ta + [':'] + tb)));
      var plain := base.(width := None, minWidth := Some(Num(a)), maxWidth := Some(Num(b)));
      ExpandRules(sugar) == ExpandRules(plain).(minWidth := Some(Str(ta)), maxWidth := Some(Str(tb)))
  {
    var ta, tb := Strings.DecimalText(a), Strings.DecimalText(b);
    var sugar := base.(width := Some(Str(ta + [':'] + tb)));
    DigitsHaveNoColon(ta);
    DigitsHaveNoColon(tb);
    RangeSugarSplits(sugar, ta, tb);
  }

  /** Two bound rules that quote the same text and compare as the same number. */
  predicate SameBound(x: Option<DimRule>, y: Option<DimRule>)
  {
    x.Some? == y.Some? && (x.Some? ==> Render(x.value) == Render(y.value) && Value(x.value) == Value(y.value))
  }

  /** Rules whose exact values coincide and whose bounds quote and compare
      alike produce the same errors after the probe. */
  lemma CheckErrorsCongruent(r1: Rules, r2: Rules, ext: string, m: Metadata)
    requires r1.width == r2.width && r1.height == r2.height
    requires SameBound(r1.minWidth, r2.minWidth) && SameBound(r1.maxWidth, r2.maxWidth)
    requires SameBound(r1.minHeight, r2.minHeight) && SameBound(r1.maxHeight, r2.maxHeight)
    requires r1.image == r2.image && r1.weight == r2.weight && r1.extensions == r2.extensions
    requires r1.image ==> m.image.Some?
    ensures CheckErrors(r1, ext, m) == CheckErrors(r2, ext, m)
  {
    CheckErrorsParts(r1, ext, m);
    CheckErrorsParts(r2, ext, m);
    assert ImageErrors(r1, m) == ImageErrors(r2, m) by {
      if r1.image {
        DimensionErrorsCongruent(r1, r2, m.image.value);
      }
    }
  }

  lemma CheckErrorsParts(r: Rules, ext: string, m: Metadata)
    requires r.image ==> m.image.Some?
    ensures CheckErrors(r, ext, m) == ImageErrors(r, m) + SizeErrors(r, m) + ExtensionErrors(r, ext)
  {
  }

  lemma DimensionErrorsCongruent(r1: Rules, r2: Rules, d: Dims)
    requires r1.width == r2.width && r1.height == r2.height
    requires SameBound(r1.minWidth, r2.minWidth) && SameBound(r1.maxWidth, r2.maxWidth)
    requires SameBound(r1.minHeight, r2.minHeight) && SameBound(r1.maxHeight, r2.maxHeight)
    ensures DimensionErrors(r1, d) == DimensionErrors(r2, d)
  {
    forall k | 2 <= k < 8
      ensures DimensionCheck(r1, d, k) == DimensionCheck(r2, d, k)
    {
      DimensionCheckCongruent(r1, r2, d, k);
    }
  }

  lemma DimensionCheckCongruent(r1: Rules, r2: Rules, d: Dims, k: nat)
    requires 2 <= k < 8
    requires r1.width == r2.width && r1.height == r2.height
    requires SameBound(r1.minWidth, r2.minWidth) && SameBound(r1.maxWidth, r2.maxWidth)
    requires SameBound(r1.minHeight, r2.minHeight) && SameBound(r1.maxHeight, r2.maxHeight)
    ensures DimensionCheck(r1, d, k) == DimensionCheck(r2, d, k)
  {
  }

  /** A bound given as the decimal text of `n` quotes and compares like `n`. */
  lemma DecimalBoundAlike(n: nat)
    ensures SameBound(Some(Str(Strings.DecimalText(n))), Some(Num(n)))
  {
    Strings.NumericValueOfDecimal(n, "");
    assert Strings.DecimalText(n) + "" == Strings.DecimalText(n);
  }

  /** `width = "a:b"` (decimal numbers) validates exactly like
      `min_width = a, max_width = b` given directly, messages included. */
  lemma RangeSugarEquivalent(base: Rules, a: nat, b: nat, s: State, m: Metadata)
    ensures
      var sugar := base.(width := Some(Str(Strings.DecimalText(a) + [':'] + Strings.DecimalText(b))));
      var plain := base.(width := None, minWidth := Some(Num(a)), maxWidth := Some(Num(b)));
      Validate(WithRules(s, sugar), m) == Validate(WithRules(s, plain), m)
  {
    var plain := base.(width := None, minWidth := Some(Num(a)), maxWidth := Some(Num(b)));
    ExpandDecimalRange(base, a, b);
    DecimalBoundAlike(a);
    DecimalBoundAlike(b);
    var r2 := ExpandRules(plain);
    var r1 := r2.(minWidth := Some(Str(Strings.DecimalText(a))), maxWidth := Some(Str(Strings.DecimalText(b))));
    ValidateRulesCongruent(s, r1, r2, m);
  }

  /** Swapping in rules that check alike leaves the whole run unchanged. */
  lemma ValidateRulesCongruent(s: State, r1: Rules, r2: Rules, m: Metadata)
    requires r1.width == r2.width && r1.height == r2.height
    requires SameBound(r1.minWidth, r2.minWidth) && SameBound(r1.maxWidth, r2.maxWidth)
    requires SameBound(r1.minHeight, r2.minHeight) && SameBound(r1.maxHeight, r2.maxHeight)
    requires r1.image == r2.image && r1.weight == r2.weight && r1.extensions == r2.extensions
    ensures Validate(s.(rules := r1), m) == Validate(s.(rules := r2), m)
  {
    var s2 := s.(rules := r2);
    if !ShortCircuits(s2) && Readable(s2, m) && !(r2.image && m.image.None?) {
      CheckErrorsCongruent(r1, r2, s.file.ext, m);
    }
  }
}
