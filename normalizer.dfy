/** The component normaliser: the preparation of one address part through an
    external stringprep profile, short-circuited by the cache of that kind of
    part, with the length ceiling of 1023 bytes per part. */
module Normalizer {
  import opened Wrappers
  import opened PrepCache
  import opened JavaLang

  /** A stringprep profile or the IDNA ToASCII operation (section 4.1 of
      RFC 3490) of the gnu.inet.encoding library: None stands for the
      exception it throws on an input it rejects. */
  type Prep = string -> Option<string>

  /** The four external operations the constructor uses. */
  datatype Preps = Preps(nodeprep: Prep, nameprep: Prep, toASCII: Prep, resourceprep: Prep)

  /** The domain is run through ToASCII and then nameprep. */
  function DomainPrep(p: Preps): Prep
  {
    (d: string) => match p.toASCII(d)
      case None => None
      case Some(a) => p.nameprep(a)
  }

  /** The two reasons a part can fail to normalise: the profile rejected it
      (StringprepException), or the prepared part is too long
      (IllegalArgumentException). */
  datatype PrepError = Rejected | TooLong

  /** The ceiling on the encoded size of one part, in bytes. */
  const MaxBytes: int := 1023

  /** The length rule as the source applies it: two bytes per UTF-16 code
      unit, the product computed as a Java int. */
  predicate Fits(s: string)
  {
    ToInt32(Length(s) * 2) <= MaxBytes
  }

  /** Parts of up to 511 code units fit; parts of 512 up to 2^30 - 1 units
      do not. A code point outside the Basic Multilingual Plane counts as
      two units, so 300 of them are already too long. */
  lemma FitsIffShort(s: string)
    requires Length(s) < 0x4000_0000
    ensures Fits(s) <==> Length(s) <= 511
  {
  }

  lemma SupplementaryPartTooLong(s: string)
    requires 256 <= |s| < 0x2000_0000
    requires forall i :: 0 <= i < |s| ==> s[i] as int >= 0x10000
    ensures !Fits(s)
  {
    LengthBounds(s);
  }

  /** From 2^30 units on, the doubled length overflows a Java int and turns
      negative, so the rule lets such a part through. */
  lemma HugePartOverflows(s: string)
    requires Length(s) == 0x4000_0000
    ensures Fits(s)
  {
  }

  /** A profile is idempotent when each of its outputs is a fixed point. */
  ghost predicate Idempotent(prep: Prep)
  {
    forall s :: prep(s).Some? ==> prep(prep(s).value) == prep(s)
  }

  /** Normalising a part without any cache: the profile's output, provided it fits. */
  function Prepare(x: string, prep: Prep): (r: Result<string, PrepError>)
    ensures r.Ok? ==> prep(x) == Some(r.value) && Fits(r.value)
    ensures r == Err(Rejected) <==> prep(x).None?
    ensures r == Err(TooLong) <==> prep(x).Some? && !Fits(prep(x).value)
  {
    match prep(x)
    case None => Err(Rejected)
    case Some(t) => if ToInt32(Length(t) * 2) > MaxBytes then Err(TooLong) else Ok(t)
  }

  /** The same for a part that may be null: null stays null. */
  function PrepareOpt(x: Option<string>, prep: Prep): Result<Option<string>, PrepError>
  {
    match x
    case None => Ok(None)
    case Some(s) =>
      match Prepare(s, prep)
      case Err(e) => Err(e)
      case Ok(t) => Ok(Some(t))
  }

  /** A cache state holds only fixed points of the profile that fit. */
  ghost predicate FixedPoints(c: CacheState<string>, prep: Prep)
  {
    forall k :: k in c.queue ==> prep(k) == Some(k) && Fits(k)
  }

  /** The whole effect of normalising x against a cache: a null part or a part
      found in the cache is used as it is; anything else is prepared, and a
      successfully prepared part is put into the cache. */
  function Step(c: CacheState<string>, x: Option<string>, prep: Prep): (Result<Option<string>, PrepError>, CacheState<string>)
  {
    if x.None? || x.value in c.queue then (Ok(x), c)
    else
      match Prepare(x.value, prep)
      case Err(e) => (Err(e), c)
      case Ok(t) => (Ok(Some(t)), CacheState(PutOrder(c.queue, t, c.maxSize), c.maxSize))
  }

  /** Cache transparency: while the cache holds only fixed points that fit, the
      result is the one the profile gives, whatever the cache contents. */
  lemma StepTransparent(c: CacheState<string>, x: Option<string>, prep: Prep)
    requires FixedPoints(c, prep)
    ensures Step(c, x, prep).0 == PrepareOpt(x, prep)
  {
  }

  /** With an idempotent profile, normalising keeps the cache made of fixed
      points, and never grows it beyond its capacity. */
  lemma StepKeepsFixedPoints(c: CacheState<string>, x: Option<string>, prep: Prep)
    requires Idempotent(prep) && FixedPoints(c, prep) && |c.queue| <= c.maxSize
    ensures FixedPoints(Step(c, x, prep).1, prep)
    ensures |Step(c, x, prep).1.queue| <= c.maxSize
  {
    if x.Some? && x.value !in c.queue && Prepare(x.value, prep).Ok? {
      var t := Prepare(x.value, prep).value;
      assert prep(t) == Some(t);
      forall k | k in PutOrder(c.queue, t, c.maxSize)
        ensures prep(k) == Some(k) && Fits(k)
      {
        PutOnlyAdds(c.queue, t, c.maxSize, k);
      }
      PutBounded(c.queue, t, c.maxSize);
    }
  }

  /** Normalise one part against its cache, as the constructor does for the
      node and the domain and resourceprep does for the resource. */
  method Normalize(x: Option<string>, prep: Prep, cache: Cache<string>)
    returns (r: Result<Option<string>, PrepError>)
    requires cache.Valid()
    modifies cache
    ensures cache.Valid()
    ensures (r, cache.State()) == Step(old(cache.State()), x, prep)
  {
    var hit := cache.Contains(x);
    if hit {
      return Ok(x);
    }
    var answer := prep(x.value);
    if answer.None? {
      return Err(Rejected);
    }
    if ToInt32(Length(answer.value) * 2) > MaxBytes {
      return Err(TooLong);
    }
    cache.Put(answer.value);
    return Ok(answer);
  }

  /** resourceprep: the public static entry point for the resource. */
  method ResourcePrep(resource: Option<string>, p: Preps, cache: Cache<string>)
    returns (r: Result<Option<string>, PrepError>)
    requires cache.Valid()
    modifies cache
    ensures cache.Valid()
    ensures (r, cache.State()) == Step(old(cache.State()), resource, p.resourceprep)
    ensures FixedPoints(old(cache.State()), p.resourceprep) ==> r == PrepareOpt(resource, p.resourceprep)
  {
    if FixedPoints(cache.State(), p.resourceprep) {
      StepTransparent(cache.State(), resource, p.resourceprep);
    }
    r := Normalize(resource, p.resourceprep, cache);
  }
}
