/** Values shared by both validators: what the filesystem and the image probe
    report about a file, the upload descriptor, the outcome of a validation
    run, and the comparisons every check is built from. */
module Files {

  datatype Option<+T> = None | Some(value: T)

  /** Pixel dimensions reported by the image probe. */
  datatype Dims = Dims(width: nat, height: nat)

  /** The answers of the collaborators about the configured path:
      `is_readable`, `@getimagesize` (None when the file is not a decodable
      image) and `filesize`. */
  datatype Metadata = Metadata(readable: bool, image: Option<Dims>, bytes: nat)

  /** One entry of `$_FILES`: temporary path, submitted file name, error code. */
  datatype Upload = Upload(tmpName: string, name: string, error: int)

  /** A validation run either throws (the file is not readable) or returns a
      boolean; `errors` is the instance's whole error list after the run. */
  datatype Outcome<+E> = Throws | Returned(ok: bool, errors: seq<E>)

  const BytesPerMb: nat := 1024 * 1024

  /** The byte bound of a size rule given in megabytes; an unset rule is
      PHP's null, which multiplies to 0. */
  function ByteLimit(mb: Option<nat>): (r: nat)
    ensures mb.None? ==> r == 0
    ensures mb.Some? ==> r == mb.value * BytesPerMb
  {
    match mb
    case None => 0
    case Some(n) => n * BytesPerMb
  }

  /** The size check is strict: only a file larger than the bound fails.
      Without a size rule the bound is 0, so every non-empty file fails. */
  predicate Oversized(bytes: nat, mb: Option<nat>)
    ensures mb.None? ==> (Oversized(bytes, mb) <==> bytes > 0)
    ensures mb.Some? ==> (Oversized(bytes, mb) <==> bytes > mb.value * BytesPerMb)
  {
    bytes > ByteLimit(mb)
  }

  /** An empty list of allowed extensions admits everything; otherwise the
      extension must be one of them, compared exactly (case-sensitive). */
  predicate ExtensionAllowed(ext: string, allowed: seq<string>)
    ensures |allowed| == 0 ==> ExtensionAllowed(ext, allowed)
    ensures |allowed| > 0 ==> (ExtensionAllowed(ext, allowed) <==> exists i :: 0 <= i < |allowed| && allowed[i] == ext)
  {
    |allowed| == 0 || ext in allowed
  }

  /** The error list one check appends: its error when violated, nothing otherwise. */
  function Check<E(!new)>(violated: bool, e: E): (r: seq<E>)
    ensures |r| <= 1
    ensures forall x :: x in r <==> violated && x == e
  {
    if violated then [e] else []
  }

  /** Every error of `errs` sits strictly later in the fixed check order than
      the ones before it (so no check reports twice). */
  predicate Ascending<E>(errs: seq<E>, rank: E -> nat)
  {
    forall i, j :: 0 <= i < j < |errs| ==> rank(errs[i]) < rank(errs[j])
  }

  /** Every error of `errs` comes from a check whose position lies in [lo, hi). */
  predicate RanksWithin<E>(errs: seq<E>, rank: E -> nat, lo: nat, hi: nat)
  {
    forall i :: 0 <= i < |errs| ==> lo <= rank(errs[i]) < hi
  }

  /** Appending the errors of later checks to those of earlier ones keeps the
      list in check order. */
  lemma AscendingConcat<E>(a: seq<E>, b: seq<E>, rank: E -> nat, lo: nat, mid: nat, hi: nat)
    requires lo <= mid <= hi
    requires Ascending(a, rank) && RanksWithin(a, rank, lo, mid)
    requires Ascending(b, rank) && RanksWithin(b, rank, mid, hi)
    ensures Ascending(a + b, rank) && RanksWithin(a + b, rank, lo, hi)
  {
    var ab := a + b;
    forall i, j | 0 <= i < j < |ab|
      ensures rank(ab[i]) < rank(ab[j])
    {
      if j < |a| {
        assert ab[i] == a[i] && ab[j] == a[j];
      } else if i < |a| {
        assert ab[i] == a[i] && ab[j] == b[j - |a|];
      } else {
        assert ab[i] == b[i - |a|] && ab[j] == b[j - |a|];
      }
    }
    forall i | 0 <= i < |ab|
      ensures lo <= rank(ab[i]) < hi
    {
      if i < |a| {
        assert ab[i] == a[i] && lo <= rank(a[i]) < mid;
      } else {
        assert ab[i] == b[i - |a|] && mid <= rank(b[i - |a|]) < hi;
      }
    }
  }

  /** A single check's contribution is in order and at that check's position. */
  lemma CheckRanked<E(!new)>(violated: bool, e: E, rank: E -> nat)
    ensures Ascending(Check(violated, e), rank)
    ensures RanksWithin(Check(violated, e), rank, rank(e), rank(e) + 1)
  {
  }
}
