/** The address value type: three normalised parts with the bare and full
    strings computed once at construction, the constructors (from parts and
    from text), and equality, ordering and hashing. */
module Address {
  import opened Wrappers
  import opened JavaLang
  import opened Parsing
  import opened PrepCache
  import opened Normalizer

  /** The exception toFullJID throws on an address without a resource. */
  datatype AccessError = NoResource

  /** An address. The cached strings are fields, as in the source; Wf says
      they agree with the parts. */
  datatype Jid = Jid(node: Option<string>, domain: string, resource: Option<string>,
                     cachedBareJID: string, cachedFullJID: string)
  {
    predicate Wf()
    {
      cachedBareJID == BareString(node, domain) &&
      cachedFullJID == FullString(node, domain, resource)
    }

    function ToBareJID(): string
    {
      cachedBareJID
    }

    function ToString(): string
    {
      cachedFullJID
    }

    /** toFullJID: the full string, or IllegalStateException exactly when
        there is no resource. */
    function ToFullJID(): (r: Result<string, AccessError>)
      ensures r.Err? <==> resource.None?
      ensures r.Ok? ==> r.value == ToString()
    {
      if resource.None? then Err(NoResource) else Ok(cachedFullJID)
    }

    /** hashCode: the hash of the full string. */
    function HashCode(): int
    {
      StringHash(cachedFullJID)
    }

    /** equals: the parts compared one by one, a null part equal only to a
        null part. */
    function Equals(other: Jid): bool
    {
      if node.Some? && node != other.node then false
      else if node.None? && other.node.Some? then false
      else if domain != other.domain then false
      else if resource.Some? && resource != other.resource then false
      else if resource.None? && other.resource.Some? then false
      else true
    }

    /** compareTo: domain first, then node, then resource, a null node or
        resource counting as the empty string. */
    function CompareTo(other: Jid): int
    {
      var c := CompareStrings(domain, other.domain);
      var c := if c == 0 then CompareStrings(OrEmpty(node), OrEmpty(other.node)) else c;
      if c == 0 then CompareStrings(OrEmpty(resource), OrEmpty(other.resource)) else c
    }
  }

  function OrEmpty(s: Option<string>): string
  {
    if s.Some? then s.value else ""
  }

  // ---------------------------------------------------------------------------
  // Value semantics.

  /** The bare string is node@domain or the domain; the full string is the
      bare one followed by /resource exactly when there is a resource. */
  lemma StringForms(j: Jid)
    requires j.Wf()
    ensures j.ToBareJID() == (if j.node.Some? then j.node.value + "@" + j.domain else j.domain)
    ensures j.resource.Some? ==> j.ToString() == j.ToBareJID() + "/" + j.resource.value
    ensures j.resource.None? ==> j.ToString() == j.ToBareJID()
    ensures j.ToFullJID().Ok? ==> j.ToFullJID().value == j.ToBareJID() + "/" + j.resource.value
  {
  }

  /** Two addresses are equal exactly when their parts are. */
  lemma EqualsIffSameParts(a: Jid, b: Jid)
    ensures a.Equals(b) <==> a.node == b.node && a.domain == b.domain && a.resource == b.resource
  {
  }

  /** equals is an equivalence relation. */
  lemma EqualsIsEquivalence(a: Jid, b: Jid, c: Jid)
    ensures a.Equals(a)
    ensures a.Equals(b) ==> b.Equals(a)
    ensures a.Equals(b) && b.Equals(c) ==> a.Equals(c)
  {
    EqualsIffSameParts(a, b);
    EqualsIffSameParts(b, c);
    EqualsIffSameParts(a, c);
  }

  /** Equal addresses have the same full string, hence the same hash code. */
  lemma EqualsImpliesSameHash(a: Jid, b: Jid)
    requires a.Wf() && b.Wf() && a.Equals(b)
    ensures a.ToString() == b.ToString()
    ensures a.HashCode() == b.HashCode()
  {
    EqualsIffSameParts(a, b);
  }

  /** compareTo is antisymmetric. */
  lemma CompareToAntisymmetric(a: Jid, b: Jid)
    ensures a.CompareTo(b) == -b.CompareTo(a)
  {
    CompareAntisymmetric(a.domain, b.domain);
    CompareAntisymmetric(OrEmpty(a.node), OrEmpty(b.node));
    CompareAntisymmetric(OrEmpty(a.resource), OrEmpty(b.resource));
  }

  lemma CompareZeroLess(a: string, b: string, c: string)
    ensures CompareStrings(a, b) == 0 && CompareStrings(b, c) < 0 ==> CompareStrings(a, c) < 0
    ensures CompareStrings(a, b) < 0 && CompareStrings(b, c) == 0 ==> CompareStrings(a, c) < 0
  {
    CompareZeroIffEqual(a, b);
    CompareZeroIffEqual(b, c);
  }

  /** compareTo is transitive. */
  lemma CompareToTransitive(a: Jid, b: Jid, c: Jid)
    requires a.CompareTo(b) < 0 && b.CompareTo(c) < 0
    ensures a.CompareTo(c) < 0
  {
    var ad, bd, cd := a.domain, b.domain, c.domain;
    var an, bn, cn := OrEmpty(a.node), OrEmpty(b.node), OrEmpty(c.node);
    var ar, br, cr := OrEmpty(a.resource), OrEmpty(b.resource), OrEmpty(c.resource);
    CompareZeroIffEqual(ad, bd);
    CompareZeroIffEqual(bd, cd);
    CompareZeroIffEqual(an, bn);
    CompareZeroIffEqual(bn, cn);
    if CompareStrings(ad, bd) < 0 && CompareStrings(bd, cd) < 0 {
      CompareTransitive(ad, bd, cd);
    } else if CompareStrings(ad, bd) == 0 && CompareStrings(bd, cd) == 0 {
      CompareZeroIffEqual(ad, cd);
      if CompareStrings(an, bn) < 0 && CompareStrings(bn, cn) < 0 {
        CompareTransitive(an, bn, cn);
      } else if CompareStrings(an, bn) == 0 && CompareStrings(bn, cn) == 0 {
        CompareZeroIffEqual(an, cn);
        CompareTransitive(ar, br, cr);
      } else {
        CompareZeroLess(an, bn, cn);
      }
    } else {
      CompareZeroLess(ad, bd, cd);
    }
  }

  /** No part is the empty string (absent parts are null). */
  predicate NoEmptyParts(j: Jid)
  {
    j.node != Some("") && j.domain != "" && j.resource != Some("")
  }

  /** compareTo is zero exactly when equals holds, for addresses whose parts
      are never the empty string. */
  lemma CompareToZeroIffEquals(a: Jid, b: Jid)
    requires NoEmptyParts(a) && NoEmptyParts(b)
    ensures a.CompareTo(b) == 0 <==> a.Equals(b)
  {
    EqualsIffSameParts(a, b);
    CompareZeroIffEqual(a.domain, b.domain);
    CompareZeroIffEqual(OrEmpty(a.node), OrEmpty(b.node));
    CompareZeroIffEqual(OrEmpty(a.resource), OrEmpty(b.resource));
  }

  /** Without that proviso the two disagree: an empty node compares equal to a
      null one, but the addresses are not equal. */
  lemma EmptyNodeComparesEqualToNull(a: Jid, b: Jid)
    requires a.node == Some("") && b.node.None?
    requires a.domain == b.domain && a.resource == b.resource
    ensures a.CompareTo(b) == 0 && !a.Equals(b)
  {
    CompareZeroIffEqual(a.domain, b.domain);
    CompareZeroIffEqual(OrEmpty(a.node), OrEmpty(b.node));
    CompareZeroIffEqual(OrEmpty(a.resource), OrEmpty(b.resource));
  }

  // ---------------------------------------------------------------------------
  // Construction.

  /** The failures of the constructors: NullPointerException for a null
      domain, IllegalArgumentException wrapping a failure to normalise a part,
      and whatever the raw parser throws. */
  datatype JidError = NullDomain | IllegalJid(cause: PrepError) | Unparsable(reason: ParseError)

  /** An empty node or resource is treated as null. */
  function EmptyToNull(s: Option<string>): Option<string>
  {
    if s == Some("") then None else s
  }

  /** The address with the given parts and its two cached strings. */
  function Assemble(node: Option<string>, domain: string, resource: Option<string>): Jid
  {
    Jid(node, domain, resource, BareString(node, domain), FullString(node, domain, resource))
  }

  /** The abstract state of the three caches: node, domain and resource. */
  datatype Caches = Caches(node: CacheState<string>, domain: CacheState<string>, resource: CacheState<string>)

  /** The capacities of the three static caches. */
  const NodeCacheSize: nat := 10000
  const DomainCacheSize: nat := 500
  const ResourceCacheSize: nat := 10000

  /** The three static caches as the class creates them: empty, with their
      capacities, and three distinct objects. */
  method InitialCaches() returns (nodeCache: Cache<string>, domainCache: Cache<string>, resourceCache: Cache<string>)
    ensures fresh(nodeCache) && fresh(domainCache) && fresh(resourceCache)
    ensures nodeCache.Valid() && domainCache.Valid() && resourceCache.Valid()
    ensures nodeCache != domainCache && nodeCache != resourceCache && domainCache != resourceCache
    ensures Caches(nodeCache.State(), domainCache.State(), resourceCache.State()) == InitialState()
  {
    nodeCache := new Cache<string>(NodeCacheSize);
    domainCache := new Cache<string>(DomainCacheSize);
    resourceCache := new Cache<string>(ResourceCacheSize);
  }

  function InitialState(): Caches
  {
    Caches(CacheState([], NodeCacheSize), CacheState([], DomainCacheSize), CacheState([], ResourceCacheSize))
  }

  /** The four-argument constructor against the caches: its result and the
      caches after it. With skipStringprep the parts are used verbatim;
      otherwise the node, the domain and the resource are normalised in that
      order, and the first failure ends construction. */
  function Construct(c: Caches, node: Option<string>, domain: Option<string>,
                     resource: Option<string>, skip: bool, p: Preps): (Result<Jid, JidError>, Caches)
  {
    if domain.None? then (Err(NullDomain), c)
    else if skip then (Ok(Assemble(node, domain.value, resource)), c)
    else
      var (n, cn) := Step(c.node, EmptyToNull(node), p.nodeprep);
      if n.Err? then (Err(IllegalJid(n.error)), Caches(cn, c.domain, c.resource))
      else
        var (d, cd) := Step(c.domain, domain, DomainPrep(p));
        if d.Err? then (Err(IllegalJid(d.error)), Caches(cn, cd, c.resource))
        else
          var (r, cr) := Step(c.resource, EmptyToNull(resource), p.resourceprep);
          if r.Err? then (Err(IllegalJid(r.error)), Caches(cn, cd, cr))
          else (Ok(Assemble(n.value, d.value.value, r.value)), Caches(cn, cd, cr))
  }

  /** The reference meaning of the constructor, with no cache at all: each
      part is what its profile makes of it. */
  function JidSpec(node: Option<string>, domain: Option<string>, resource: Option<string>,
                   skip: bool, p: Preps): Result<Jid, JidError>
  {
    if domain.None? then Err(NullDomain)
    else if skip then Ok(Assemble(node, domain.value, resource))
    else
      match (PrepareOpt(EmptyToNull(node), p.nodeprep),
             Prepare(domain.value, DomainPrep(p)),
             PrepareOpt(EmptyToNull(resource), p.resourceprep))
      case (Err(e), _, _) => Err(IllegalJid(e))
      case (Ok(_), Err(e), _) => Err(IllegalJid(e))
      case (Ok(_), Ok(_), Err(e)) => Err(IllegalJid(e))
      case (Ok(n), Ok(d), Ok(r)) => Ok(Assemble(n, d, r))
  }

  /** Each cache holds only fixed points, that fit, of its own profile. */
  ghost predicate Sound(c: Caches, p: Preps)
  {
    FixedPoints(c.node, p.nodeprep) && FixedPoints(c.domain, DomainPrep(p)) &&
    FixedPoints(c.resource, p.resourceprep)
  }

  ghost predicate WithinCapacity(c: Caches)
  {
    |c.node.queue| <= c.node.maxSize && |c.domain.queue| <= c.domain.maxSize &&
    |c.resource.queue| <= c.resource.maxSize
  }

  ghost predicate PrepsIdempotent(p: Preps)
  {
    Idempotent(p.nodeprep) && Idempotent(DomainPrep(p)) && Idempotent(p.resourceprep)
  }

  /** The caches start out sound for any profiles and within capacity, so
      every address built by the class is the one its profiles determine,
      as long as the profiles are idempotent. */
  lemma InitialStateSound(p: Preps)
    ensures Sound(InitialState(), p) && WithinCapacity(InitialState())
  {
  }

  /** Cache transparency for the constructor: with sound caches, the address
      built is the one the profiles alone determine. */
  lemma ConstructTransparent(c: Caches, node: Option<string>, domain: Option<string>,
                             resource: Option<string>, skip: bool, p: Preps)
    requires Sound(c, p)
    ensures Construct(c, node, domain, resource, skip, p).0 == JidSpec(node, domain, resource, skip, p)
  {
    StepTransparent(c.node, EmptyToNull(node), p.nodeprep);
    StepTransparent(c.domain, domain, DomainPrep(p));
    StepTransparent(c.resource, EmptyToNull(resource), p.resourceprep);
  }

  /** With idempotent profiles, construction keeps the caches sound and within
      capacity, whatever it is given. */
  lemma ConstructKeepsSound(c: Caches, node: Option<string>, domain: Option<string>,
                            resource: Option<string>, skip: bool, p: Preps)
    requires PrepsIdempotent(p) && Sound(c, p) && WithinCapacity(c)
    ensures Sound(Construct(c, node, domain, resource, skip, p).1, p)
    ensures WithinCapacity(Construct(c, node, domain, resource, skip, p).1)
  {
    if domain.Some? && !skip {
      StepKeepsFixedPoints(c.node, EmptyToNull(node), p.nodeprep);
      StepKeepsFixedPoints(c.domain, domain, DomainPrep(p));
      StepKeepsFixedPoints(c.resource, EmptyToNull(resource), p.resourceprep);
    }
  }

  /** What the constructor promises about the address it builds: a null
      domain throws in both modes; with skipStringprep the parts are taken
      verbatim; otherwise an empty node or resource becomes null, each present
      part is its profile's output and fits the length ceiling, and
      construction fails exactly when some profile rejects its part or gives
      an output that is too long. In every case the cached strings agree
      with the parts. */
  lemma JidSpecParts(node: Option<string>, domain: Option<string>, resource: Option<string>,
                     skip: bool, p: Preps)
    ensures domain.None? <==> JidSpec(node, domain, resource, skip, p) == Err(NullDomain)
    ensures JidSpec(node, domain, resource, skip, p).Ok? ==> JidSpec(node, domain, resource, skip, p).value.Wf()
    ensures domain.Some? && skip ==>
      var j := JidSpec(node, domain, resource, skip, p).value;
      j.node == node && j.domain == domain.value && j.resource == resource
    ensures domain.Some? && !skip ==>
      (JidSpec(node, domain, resource, skip, p).Ok? <==>
        PrepareOpt(EmptyToNull(node), p.nodeprep).Ok? &&
        Prepare(domain.value, DomainPrep(p)).Ok? &&
        PrepareOpt(EmptyToNull(resource), p.resourceprep).Ok?)
    ensures domain.Some? && !skip && JidSpec(node, domain, resource, skip, p).Ok? ==>
      var j := JidSpec(node, domain, resource, skip, p).value;
      (j.node.None? <==> node.None? || node == Some("")) &&
      (j.node.Some? ==> p.nodeprep(node.value) == j.node && Fits(j.node.value)) &&
      DomainPrep(p)(domain.value) == Some(j.domain) && Fits(j.domain) &&
      (j.resource.None? <==> resource.None? || resource == Some("")) &&
      (j.resource.Some? ==> p.resourceprep(resource.value) == j.resource && Fits(j.resource.value))
  {
  }

  /** The end of the constructor: the bare string built once in a buffer,
      and the full string by appending /resource to the same buffer. */
  method CacheStrings(n: Option<string>, d: string, res: Option<string>) returns (bare: string, full: string)
    ensures bare == BareString(n, d)
    ensures full == FullString(n, d, res)
    ensures res.None? ==> full == bare
  {
    var buf: string := [];
    if n.Some? {
      buf := buf + n.value + "@";
      assert buf == n.value + "@";
    }
    buf := buf + d;
    bare := buf;
    if res.Some? {
      buf := buf + "/" + res.value;
      full := buf;
    } else {
      full := bare;
    }
  }

  /** The four-argument constructor. The three caches are passed in; they are
      three different objects, as the three static caches of the source are. */
  method NewJid(node: Option<string>, domain: Option<string>, resource: Option<string>,
                skipStringprep: bool, p: Preps,
                nodeCache: Cache<string>, domainCache: Cache<string>, resourceCache: Cache<string>)
    returns (r: Result<Jid, JidError>)
    requires nodeCache.Valid() && domainCache.Valid() && resourceCache.Valid()
    requires nodeCache != domainCache && nodeCache != resourceCache && domainCache != resourceCache
    modifies nodeCache, domainCache, resourceCache
    ensures nodeCache.Valid() && domainCache.Valid() && resourceCache.Valid()
    ensures (r, Caches(nodeCache.State(), domainCache.State(), resourceCache.State())) ==
            Construct(old(Caches(nodeCache.State(), domainCache.State(), resourceCache.State())),
                      node, domain, resource, skipStringprep, p)
  {
    if domain.None? {
      return Err(NullDomain);
    }
    var n: Option<string>, d: string, res: Option<string>;
    if skipStringprep {
      n, d, res := node, domain.value, resource;
    } else {
      var nodeIn := if node == Some("") then None else node;
      var resourceIn := if resource == Some("") then None else resource;
      var rn := Normalize(nodeIn, p.nodeprep, nodeCache);
      if rn.Err? {
        return Err(IllegalJid(rn.error));
      }
      var rd := Normalize(domain, DomainPrep(p), domainCache);
      if rd.Err? {
        return Err(IllegalJid(rd.error));
      }
      var rr := ResourcePrep(resourceIn, p, resourceCache);
      if rr.Err? {
        return Err(IllegalJid(rr.error));
      }
      n, d, res := rn.value, rd.value.value, rr.value;
    }
    var bare, full := CacheStrings(n, d, res);
    return Ok(Jid(n, d, res, bare, full));
  }

  // ---------------------------------------------------------------------------
  // Construction from text, and the static equals.

  /** The string constructors: getParts, then the four-argument constructor. */
  function ConstructText(c: Caches, jid: Option<string>, skip: bool, p: Preps): (Result<Jid, JidError>, Caches)
  {
    match GetParts(jid)
    case Err(e) => (Err(Unparsable(e)), c)
    case Ok(parts) => Construct(c, parts.node, parts.domain, parts.resource, skip, p)
  }

  /** The reference meaning of the string constructors, with no cache. */
  function TextSpec(jid: Option<string>, skip: bool, p: Preps): Result<Jid, JidError>
  {
    match GetParts(jid)
    case Err(e) => Err(Unparsable(e))
    case Ok(parts) => JidSpec(parts.node, parts.domain, parts.resource, skip, p)
  }

  /** With sound caches the string constructors build what the reference
      meaning says, and leave the caches sound when the profiles are
      idempotent. */
  lemma TextTransparent(c: Caches, jid: Option<string>, skip: bool, p: Preps)
    requires Sound(c, p) && WithinCapacity(c)
    ensures ConstructText(c, jid, skip, p).0 == TextSpec(jid, skip, p)
    ensures PrepsIdempotent(p) ==> Sound(ConstructText(c, jid, skip, p).1, p)
  {
    match GetParts(jid)
    case Err(_) =>
    case Ok(parts) =>
      ConstructTransparent(c, parts.node, parts.domain, parts.resource, skip, p);
      if PrepsIdempotent(p) {
        ConstructKeepsSound(c, parts.node, parts.domain, parts.resource, skip, p);
      }
  }

  /** JID(String) and JID(String, boolean). */
  method ParseJid(jid: Option<string>, skipStringprep: bool, p: Preps,
                  nodeCache: Cache<string>, domainCache: Cache<string>, resourceCache: Cache<string>)
    returns (r: Result<Jid, JidError>)
    requires nodeCache.Valid() && domainCache.Valid() && resourceCache.Valid()
    requires nodeCache != domainCache && nodeCache != resourceCache && domainCache != resourceCache
    modifies nodeCache, domainCache, resourceCache
    ensures nodeCache.Valid() && domainCache.Valid() && resourceCache.Valid()
    ensures (r, Caches(nodeCache.State(), domainCache.State(), resourceCache.State())) ==
            ConstructText(old(Caches(nodeCache.State(), domainCache.State(), resourceCache.State())),
                          jid, skipStringprep, p)
  {
    var parts := GetParts(jid);
    if parts.Err? {
      return Err(Unparsable(parts.error));
    }
    r := NewJid(parts.value.node, parts.value.domain, parts.value.resource, skipStringprep, p,
                nodeCache, domainCache, resourceCache);
  }

  /** The static equals(String, String): build both addresses, the first one
      first, and compare them; either construction may throw. */
  function EqualsTextOutcome(c: Caches, jid1: Option<string>, jid2: Option<string>, p: Preps): (Result<bool, JidError>, Caches)
  {
    var (a, c1) := ConstructText(c, jid1, false, p);
    if a.Err? then (Err(a.error), c1)
    else
      var (b, c2) := ConstructText(c1, jid2, false, p);
      if b.Err? then (Err(b.error), c2)
      else (Ok(a.value.Equals(b.value)), c2)
  }

  /** The reference meaning of the static equals, with no cache. */
  function EqualsTextSpec(jid1: Option<string>, jid2: Option<string>, p: Preps): Result<bool, JidError>
  {
    match (TextSpec(jid1, false, p), TextSpec(jid2, false, p))
    case (Err(e), _) => Err(e)
    case (Ok(_), Err(e)) => Err(e)
    case (Ok(a), Ok(b)) => Ok(a.Equals(b))
  }

  /** The static equals is transparent too: the first construction leaves the
      caches sound for the second one. */
  lemma EqualsTextTransparent(c: Caches, jid1: Option<string>, jid2: Option<string>, p: Preps)
    requires PrepsIdempotent(p) && Sound(c, p) && WithinCapacity(c)
    ensures EqualsTextOutcome(c, jid1, jid2, p).0 == EqualsTextSpec(jid1, jid2, p)
  {
    TextTransparent(c, jid1, false, p);
    var c1 := ConstructText(c, jid1, false, p).1;
    if GetParts(jid1).Ok? {
      var parts := GetParts(jid1).value;
      ConstructKeepsSound(c, parts.node, parts.domain, parts.resource, false, p);
    }
    TextTransparent(c1, jid2, false, p);
  }

  method EqualsText(jid1: Option<string>, jid2: Option<string>, p: Preps,
                    nodeCache: Cache<string>, domainCache: Cache<string>, resourceCache: Cache<string>)
    returns (r: Result<bool, JidError>)
    requires nodeCache.Valid() && domainCache.Valid() && resourceCache.Valid()
    requires nodeCache != domainCache && nodeCache != resourceCache && domainCache != resourceCache
    modifies nodeCache, domainCache, resourceCache
    ensures nodeCache.Valid() && domainCache.Valid() && resourceCache.Valid()
    ensures (r, Caches(nodeCache.State(), domainCache.State(), resourceCache.State())) ==
            EqualsTextOutcome(old(Caches(nodeCache.State(), domainCache.State(), resourceCache.State())),
                              jid1, jid2, p)
    ensures PrepsIdempotent(p) && old(Sound(Caches(nodeCache.State(), domainCache.State(), resourceCache.State()), p)) ==>
            r == EqualsTextSpec(jid1, jid2, p)
  {
    ghost var before := Caches(nodeCache.State(), domainCache.State(), resourceCache.State());
    if PrepsIdempotent(p) && Sound(before, p) {
      EqualsTextTransparent(before, jid1, jid2, p);
    }
    var a := ParseJid(jid1, false, p, nodeCache, domainCache, resourceCache);
    if a.Err? {
      return Err(a.error);
    }
    var b := ParseJid(jid2, false, p, nodeCache, domainCache, resourceCache);
    if b.Err? {
      return Err(b.error);
    }
    return Ok(a.value.Equals(b.value));
  }

  // ---------------------------------------------------------------------------
  // Printing and parsing again.

  /** With idempotent profiles, an address built from parts is rebuilt equal
      from its own string, provided its parts have the shape the parser can
      split back (and the resource is not the empty string, which the
      constructor would turn into null). */
  lemma ReparsePrinted(node: Option<string>, domain: Option<string>, resource: Option<string>, p: Preps)
    requires PrepsIdempotent(p)
    requires JidSpec(node, domain, resource, false, p).Ok?
    requires var j := JidSpec(node, domain, resource, false, p).value;
      Printable(j.node, j.domain, j.resource) && j.resource != Some("")
    ensures var j := JidSpec(node, domain, resource, false, p).value;
      TextSpec(Some(j.ToString()), false, p) == Ok(j)
  {
    var j := JidSpec(node, domain, resource, false, p).value;
    JidSpecParts(node, domain, resource, false, p);
    ParseFullString(j.node, j.domain, j.resource);
    assert EmptyToNull(j.node) == j.node && EmptyToNull(j.resource) == j.resource;
    JidSpecParts(j.node, Some(j.domain), j.resource, false, p);
  }
}
