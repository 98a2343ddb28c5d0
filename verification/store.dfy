/** The wish table behind `prisma.wish`, reduced to a map from slug to
    record (the slug column is unique, which is what `findUnique` looks up),
    and the suffix probe that `POST /api/wishes` runs against it. */
module Store {
  import opened Wrappers
  import opened Wish
  import opened Slug

  /** A stored wish: the `data` object passed to `prisma.wish.create`. */
  datatype WishRecord = WishRecord(
    name: string,
    tone: Tone,
    emoji: string,
    from: Option<string>,
    notes: Option<string>,
    imageUrl: Option<string>,
    content: string,
    slug: string)

  /** The message of the error the store raises when the slug is taken. */
  const DuplicateSlugError := "Unique constraint failed on the fields: (`slug`)"

  /** The probe gives up after this many suffixes. */
  const MaxSuffix := 1000

  /** The suffix the probe settles on when the slugs in `taken` exist and it
      has reached `k`: the first free candidate from `k` on, or `1001` (whose
      candidate is never looked up) when all of them up to `1000` are taken. */
  function ProbeFrom(taken: set<string>, base: string, k: nat): (r: nat)
    requires k <= MaxSuffix
    ensures k <= r <= MaxSuffix + 1
    ensures forall j :: k <= j < r ==> Candidate(base, j) in taken
    ensures r <= MaxSuffix ==> Candidate(base, r) !in taken
    decreases MaxSuffix - k
  {
    if Candidate(base, k) !in taken then k
    else if k + 1 > MaxSuffix then k + 1
    else ProbeFrom(taken, base, k + 1)
  }

  /** The first `n` candidates for `base`, in probe order. */
  function Candidates(base: string, n: nat): (r: seq<string>)
    ensures |r| == n
    ensures forall j :: 0 <= j < n ==> r[j] == Candidate(base, j)
  {
    if n == 0 then [] else Candidates(base, n - 1) + [Candidate(base, n - 1)]
  }

  class WishStore {
    var records: map<string, WishRecord>

    /** Every record is filed under its own slug. */
    ghost predicate Valid()
      reads this
    {
      forall s :: s in records ==> records[s].slug == s
    }

    constructor()
      ensures Valid() && records == map[]
    {
      records := map[];
    }

    /** `prisma.wish.findUnique({ where: { slug } })`. */
    method FindUnique(slug: string) returns (found: Option<WishRecord>)
      requires Valid()
      ensures found.Some? <==> slug in records
      ensures found.Some? ==> found.value == records[slug] && found.value.slug == slug
    {
      if slug in records {
        found := Some(records[slug]);
      } else {
        found := None;
      }
    }

    /** `prisma.wish.create({ data })`: fails, changing nothing, when the
        slug is already taken. */
    method Create(rec: WishRecord) returns (saved: Result<WishRecord, string>)
      requires Valid()
      modifies this
      ensures Valid()
      ensures old(rec.slug in records) ==> saved == Failure(DuplicateSlugError) && records == old(records)
      ensures old(rec.slug !in records) ==> saved == Success(rec) && records == old(records)[rec.slug := rec]
    {
      if rec.slug in records {
        saved := Failure(DuplicateSlugError);
      } else {
        records := records[rec.slug := rec];
        saved := Success(rec);
      }
    }

    /** The `while (true)` loop: look up `base`, `base-1`, `base-2`, … and
        stop at the first free one, or after `base-1000` was found taken, in
        which case `base-1001` is returned without a lookup. `lookups` lists
        the slugs looked up, in order. */
    method ProbeSlug(base: string) returns (slug: string, suffix: nat, ghost lookups: seq<string>)
      requires Valid()
      ensures suffix == ProbeFrom(records.Keys, base, 0) && slug == Candidate(base, suffix)
      ensures suffix <= MaxSuffix + 1
      ensures forall j :: 0 <= j < suffix ==> Candidate(base, j) in records
      ensures suffix <= MaxSuffix ==> slug !in records
      ensures lookups == Candidates(base, if suffix <= MaxSuffix then suffix + 1 else suffix)
    {
      slug := base;
      suffix := 0;
      lookups := [];
      while true
        invariant suffix <= MaxSuffix
        invariant slug == Candidate(base, suffix)
        invariant forall j :: 0 <= j < suffix ==> Candidate(base, j) in records
        invariant lookups == Candidates(base, suffix)
        decreases MaxSuffix - suffix
      {
        var existing := FindUnique(slug);
        lookups := lookups + [slug];
        assert lookups == Candidates(base, suffix + 1);
        if existing.None? {
          break;
        }
        assert Candidate(base, suffix) in records;
        suffix := suffix + 1;
        slug := base + "-" + Decimal(suffix);
        if suffix > MaxSuffix {
          break;
        }
      }
      ProbeFromIsFirstFree(records.Keys, base, suffix);
    }
  }

  /** `ProbeFrom` is the only suffix up to `1001` below which every
      candidate is taken and which, unless it is `1001`, is free. */
  lemma ProbeFromIsFirstFree(taken: set<string>, base: string, r: nat)
    requires r <= MaxSuffix + 1
    requires forall j :: 0 <= j < r ==> Candidate(base, j) in taken
    requires r <= MaxSuffix ==> Candidate(base, r) !in taken
    ensures ProbeFrom(taken, base, 0) == r
  {
    var p := ProbeFrom(taken, base, 0);
    assert p <= MaxSuffix ==> Candidate(base, p) !in taken;
  }

  /** With `ana`, `ana-1` and `ana-2` taken the probe settles on `ana-3`. */
  lemma ProbeExample(taken: set<string>)
    requires taken == {"ana", "ana-1", "ana-2"}
    ensures ProbeFrom(taken, "ana", 0) == 3
    ensures Candidate("ana", 3) == "ana-3"
  {
    assert Decimal(1) == "1" && Decimal(2) == "2" && Decimal(3) == "3";
    assert Candidate("ana", 1) == "ana" + "-" + "1" == "ana-1";
    assert Candidate("ana", 2) == "ana" + "-" + "2" == "ana-2";
    assert Candidate("ana", 3) == "ana" + "-" + "3" == "ana-3";
    assert "ana-3" != "ana-1" && "ana-3" != "ana-2" && "ana-3" != "ana";
  }

  /** When `base` through `base-1000` are all taken the probe ends on
      `base-1001`, a slug it never looked up. */
  lemma ProbeCeiling(taken: set<string>, base: string)
    requires forall j :: 0 <= j <= MaxSuffix ==> Candidate(base, j) in taken
    ensures ProbeFrom(taken, base, 0) == MaxSuffix + 1
  {
  }

  /** A free candidate among the first 1001 is always found, so the probe
      result is then free. */
  lemma ProbeFindsFree(taken: set<string>, base: string, k: nat)
    requires k <= MaxSuffix && Candidate(base, k) !in taken
    ensures ProbeFrom(taken, base, 0) <= k
    ensures Candidate(base, ProbeFrom(taken, base, 0)) !in taken
  {
  }
}
