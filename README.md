# JID: the XMPP address type

This project models `org.xmpp.packet.JID`, the immutable XMPP address
`[ node "@" ] domain [ "/" resource ]` of RFC 3920, section 3. It covers:

- the raw parser `getParts`;
- the constructors, which normalise each part through its stringprep
  profile (nodeprep, IDNA ToASCII followed by nameprep, resourceprep).
  Each profile is short-circuited by a bounded first-in-first-out cache of
  parts already known to be normalised, and a part's prepared size has a
  ceiling of 1023 bytes;
- the bare and full strings computed once at construction;
- `equals`, `compareTo` and `hashCode`;
- the static `equals(String, String)`;
- the JID Escaping codec of XEP-0106 (`escapeNode` and `unescapeNode`).

Modules, one per file:

- `Wrappers` holds `Option` and `Result`. Java `null` is `None`, and a
  thrown exception is an `Err`.
- `JavaLang` models `Character.isWhitespace` and the String operations
  `indexOf`, `length`, `compareTo` and `hashCode`. A model string is a
  sequence of Unicode code points, while a Java String is a sequence of
  UTF-16 code units. `length`, `compareTo` and `hashCode` therefore work
  on the UTF-16 encoding (`Units`), where a code point above U+FFFF is a
  surrogate pair. `indexOf` and the substrings of `getParts` count code
  points instead of units. That gives the same split, because `@` and `/`
  are single units. Escaping matches the source's unit-by-unit loops,
  because a surrogate is neither whitespace, a table character nor a
  backslash.
- `Escaping` holds the XEP-0106 codec, as two loop methods proved against
  the recursive functions `Escape` and `Unescape`.
- `Parsing` holds `getParts` and the printed forms.
- `PrepCache` holds the cache. `Cache` is a class: its `queue` field is
  the FIFO order and its `keys` field is the key set of the map. `put` and
  `contains` are methods, specified by the pure insertion-order function
  `PutOrder`.
- `Normalizer` normalises one part against its cache: `Normalize` and
  `resourceprep`. The profiles are parameters, because their code is not
  part of this model.
- `Address` holds the `Jid` value, its constructors and its value
  semantics.

The cache-based constructor `NewJid` is tied to a cache-free reference,
`JidSpec`, by a transparency property. It holds while every cached string
is a fixed point of its profile that fits the ceiling. The caches start
empty. Construction keeps that property whenever the profiles are
idempotent, so the caches never change what an address is.

The model follows the code, including these behaviours:

- `getParts("a/")` gives the empty resource `""`, not a null resource.
- `getParts("example.com@")` does not throw: it gives the node
  `example.com` and an empty domain. The guard that would throw
  "empty domain" can never fire (`Parsing.EmptyDomainNeverThrown`).
- A `/` that is not the first character and comes before the first `@`,
  as in `"a/b@c"`, makes `substring` throw
  `StringIndexOutOfBoundsException`. A leading `/`, as in `"/a@b"`, throws
  nothing.
- The length rule doubles the UTF-16 length as a Java int. From 2^30
  units on, that product wraps to a negative number, and the rule lets
  the part through.
- `unescapeNode` recognises only the lower-case codes. Every whitespace
  character escapes to `\20`, so a round trip folds whitespace to spaces.

## Model

| member | source | states |
|---|---|---|
| JavaLang.IndexOf | src/main/java/org/xmpp/packet/JID.java:362-363 | `indexOf` gives -1 exactly when the char is absent, else the position of its first occurrence |
| JavaLang.Utf16 | src/main/java/org/xmpp/packet/JID.java:208 | a code point below U+10000 is one UTF-16 unit, any other is two |
| JavaLang.LengthBounds | src/main/java/org/xmpp/packet/JID.java:208 | `length()` counts between one and two units per code point, exactly two when all lie outside the Basic Multilingual Plane |
| JavaLang.SupplementaryCountsTwice | src/main/java/org/xmpp/packet/JID.java:208 | a single code point above U+FFFF has `length()` 2 |
| JavaLang.FirstUnitTellsKind | src/main/java/org/xmpp/packet/JID.java:517-526 | the first UTF-16 unit tells a surrogate pair from a single unit |
| JavaLang.UnitsInjective | src/main/java/org/xmpp/packet/JID.java:517-526 | different strings have different UTF-16 encodings |
| JavaLang.CompareUnitsZeroIffEqual | src/main/java/org/xmpp/packet/JID.java:517-526 | the unit comparison loop is zero exactly on equal unit sequences |
| JavaLang.CompareUnitsAntisymmetric | src/main/java/org/xmpp/packet/JID.java:517-526 | swapping the unit sequences negates the comparison |
| JavaLang.CompareUnitsTransitive | src/main/java/org/xmpp/packet/JID.java:517-526 | the unit comparison is transitive on "less than" |
| JavaLang.SupplementarySortsBelowFFFF | src/main/java/org/xmpp/packet/JID.java:517-526 | `compareTo` orders by UTF-16 units: a code point of U+10000 or above sorts below U+FFFF |
| JavaLang.ToInt32 | src/main/java/org/xmpp/packet/JID.java:208 | narrowing to a Java int gives a value in the int range, congruent modulo 2^32 |
| JavaLang.CompareZeroIffEqual | src/main/java/org/xmpp/packet/JID.java:517-526 | String `compareTo` is zero exactly on equal strings |
| JavaLang.CompareAntisymmetric | src/main/java/org/xmpp/packet/JID.java:517-526 | String `compareTo(a, b)` is the negation of `compareTo(b, a)` |
| JavaLang.CompareTransitive | src/main/java/org/xmpp/packet/JID.java:517-526 | String `compareTo` is transitive on "less than" |
| JavaLang.HashWord | src/main/java/org/xmpp/packet/JID.java:475-477 | the String hash loop over the UTF-16 units stays within an unsigned 32-bit word |
| JavaLang.StringHash | src/main/java/org/xmpp/packet/JID.java:475-477 | the String hash over the UTF-16 units is a signed 32-bit int, congruent to the hash word |
| Escaping.SpaceFolded | src/main/java/org/xmpp/packet/JID.java:93-121 | folding whitespace to spaces keeps the length |
| Escaping.EscapeNode | src/main/java/org/xmpp/packet/JID.java:93-121 | null gives null; otherwise the loop's buffer is exactly the table escape of the node |
| Escaping.UnescapeNode | src/main/java/org/xmpp/packet/JID.java:154-201 | null gives null; otherwise the scan (skip 3 over a known code, else copy 1) yields exactly `Unescape` of the node |
| Escaping.UnescapeAt | src/main/java/org/xmpp/packet/JID.java:160-198 | one step of the unescape scan at index i: decode a known code after a backslash, else copy the char |
| Escaping.EscapeAppend | src/main/java/org/xmpp/packet/JID.java:93-121 | escaping works char by char: escaping a concatenation concatenates the escapes |
| Escaping.UnescapeEscapeChar | src/main/java/org/xmpp/packet/JID.java:93-201 | unescaping one char's escape gives that char back, with whitespace as a space, and the rest of the input is untouched |
| Escaping.UnescapeEscapeFolds | src/main/java/org/xmpp/packet/JID.java:93-201 | unescape(escape(s)) is s with every whitespace char turned into a space, for every s |
| Escaping.SpaceFoldedIdentity | src/main/java/org/xmpp/packet/JID.java:110-112 | folding changes nothing when the only whitespace is the space |
| Escaping.RoundTrip | src/main/java/org/xmpp/packet/JID.java:93-201 | unescape(escape(s)) == s when the only whitespace in s is the space |
| Escaping.TabDoesNotRoundTrip | src/main/java/org/xmpp/packet/JID.java:110-112 | a tab escapes to `\20` and comes back as a space |
| Escaping.EscapeHasNoProhibited | src/main/java/org/xmpp/packet/JID.java:93-121 | the escaped node has no whitespace and none of `" & ' / : < > @`; its only table char is the backslash |
| Escaping.EscapeBackslashesAreCodes | src/main/java/org/xmpp/packet/JID.java:93-121 | every backslash in the escaped node starts one of the ten decodable codes |
| Escaping.EscapeLength | src/main/java/org/xmpp/packet/JID.java:93-121 | each escaped char grows by two; the others keep their length |
| Escaping.EscapePlainIdentity | src/main/java/org/xmpp/packet/JID.java:110-117 | a node with no table or whitespace chars is its own escape |
| Escaping.UnescapeNotLonger | src/main/java/org/xmpp/packet/JID.java:154-201 | unescaping never lengthens its input |
| Escaping.UnescapeWithoutBackslash | src/main/java/org/xmpp/packet/JID.java:160-199 | input without a backslash is returned unchanged |
| Escaping.UnescapeShortTail | src/main/java/org/xmpp/packet/JID.java:163-197 | a backslash among the last two chars is copied literally |
| Escaping.UpperCaseCodeKept | src/main/java/org/xmpp/packet/JID.java:163-197 | codes are case-sensitive: `\2F` is left as it is |
| Escaping.RescanAfterLiteralBackslash | src/main/java/org/xmpp/packet/JID.java:165-198 | after an undecodable backslash the scan resumes at the next char, so `\\20` gives `\ ` |
| Escaping.EscapeSpaceBetween | src/main/java/org/xmpp/packet/JID.java:93-121 | a space between two plain words becomes `\20` and nothing else changes (Joe Smith to Joe\20Smith) |
| Escaping.UnescapePlainPrefix | src/main/java/org/xmpp/packet/JID.java:154-201 | a prefix without backslashes passes through unescaping unchanged |
| Escaping.UnescapeSpaceBetween | src/main/java/org/xmpp/packet/JID.java:154-201 | `\20` between two backslash-free words becomes a space again |
| Parsing.NullGivesNulls | src/main/java/org/xmpp/packet/JID.java:356-360 | a null text gives three null parts |
| Parsing.EmptyDomainNeverThrown | src/main/java/org/xmpp/packet/JID.java:371-373 | the empty-domain exception is never thrown |
| Parsing.ThrowsIffSlashBeforeAt | src/main/java/org/xmpp/packet/JID.java:362-389 | getParts throws exactly when a `/` that is not the first char comes before the first `@` |
| Parsing.NodeIsPrefixBeforeAt | src/main/java/org/xmpp/packet/JID.java:365-368 | the node is present exactly when there is an `@` that is not the first char; it is then the non-empty, `@`-free text before that `@` |
| Parsing.ResourceIsSuffixAfterSlash | src/main/java/org/xmpp/packet/JID.java:391-397 | the resource is present exactly when there is a `/`, and is then everything after the first `/` |
| Parsing.TrailingSlashGivesEmptyResource | src/main/java/org/xmpp/packet/JID.java:391-397 | `"a/"` gives the domain `a` and the empty resource |
| Parsing.TrailingAtGivesEmptyDomain | src/main/java/org/xmpp/packet/JID.java:371-389 | `n@` parses without error to the node `n` and the empty domain |
| Parsing.SlashBeforeAtThrows | src/main/java/org/xmpp/packet/JID.java:383-385 | `"a/b@c"` throws an index-out-of-bounds exception |
| Parsing.LeadingSlashDoesNotThrow | src/main/java/org/xmpp/packet/JID.java:362-397 | `"/a@b"` does not throw: the slash index 0 fails the `slashIndex > 0` guard, giving node `/a`, domain `b` and resource `a@b` |
| Parsing.ParseFullString | src/main/java/org/xmpp/packet/JID.java:355-402 | getParts splits the full string of printable parts back into exactly those parts |
| PrepCache.PutBounded | src/main/java/org/xmpp/packet/JID.java:598-600 | after put the cache holds at most maxSize entries |
| PrepCache.PutKeepsDistinct | src/main/java/org/xmpp/packet/JID.java:591-594 | the queue never holds an entry twice |
| PrepCache.PutPresentUnchanged | src/main/java/org/xmpp/packet/JID.java:588-601 | putting a present entry changes neither the keys nor the order |
| PrepCache.PutThenContains | src/main/java/org/xmpp/packet/JID.java:588-601 | with capacity at least one, the entry just put is present afterwards, as the newest entry if it was new |
| PrepCache.PutEvictsOldestFirst | src/main/java/org/xmpp/packet/JID.java:598-600 | eviction removes the oldest entries: what stays is the newest suffix of the insertion order, min(size, maxSize) long |
| PrepCache.PutOnlyAdds | src/main/java/org/xmpp/packet/JID.java:588-601 | put adds no entry but its own |
| PrepCache.AddNewest | src/main/java/org/xmpp/packet/JID.java:592-594 | offering an absent entry keeps the queue and the key set in step |
| PrepCache.DropOldest | src/main/java/org/xmpp/packet/JID.java:598-599 | polling the oldest entry and removing its key keeps the queue and the key set in step |
| PrepCache.Cache.constructor | src/main/java/org/xmpp/packet/JID.java:577-579 | a new cache is empty with the given capacity |
| PrepCache.Cache.Put | src/main/java/org/xmpp/packet/JID.java:588-601 | put keeps the cache valid and leaves the insertion order `PutOrder(old order, entry, maxSize)` |
| PrepCache.Cache.Contains | src/main/java/org/xmpp/packet/JID.java:611-620 | null counts as contained; otherwise true exactly for a cached key |
| Normalizer.Prepare | src/main/java/org/xmpp/packet/JID.java:288-293 | success exactly when the profile accepts and the output passes `length()*2 <= 1023`, with `length()` in UTF-16 units and the product a Java int; rejection and too-long are told apart |
| Normalizer.FitsIffShort | src/main/java/org/xmpp/packet/JID.java:208 | below 2^30 units, a part fits exactly when it has at most 511 UTF-16 units (`length()*2 > 1023` rejects the rest) |
| Normalizer.SupplementaryPartTooLong | src/main/java/org/xmpp/packet/JID.java:288-293 | 256 or more code points above U+FFFF are rejected as too long, because each counts as two units |
| Normalizer.HugePartOverflows | src/main/java/org/xmpp/packet/JID.java:306-310 | a part of exactly 2^30 units passes, because `length()*2` overflows the Java int |
| Normalizer.StepTransparent | src/main/java/org/xmpp/packet/JID.java:287-298 | with a cache of fixed points that fit, the cache never changes the result of normalising a part |
| Normalizer.StepKeepsFixedPoints | src/main/java/org/xmpp/packet/JID.java:287-298 | with an idempotent profile, normalising keeps the cache made of fitting fixed points and within capacity |
| Normalizer.Normalize | src/main/java/org/xmpp/packet/JID.java:287-314 | the result and the new cache state are those of `Step`: a hit or null is used as is; otherwise prepare, check the length, then put |
| Normalizer.ResourcePrep | src/main/java/org/xmpp/packet/JID.java:203-215 | resourceprep is `Step` over the resource cache, and equals the profile's own answer while the cache holds fixed points |
| Address.Jid.ToFullJID | src/main/java/org/xmpp/packet/JID.java:457-464 | throws exactly when there is no resource; otherwise gives the full string |
| Address.StringForms | src/main/java/org/xmpp/packet/JID.java:329-345 | the bare string is node@domain or the domain; the full string adds /resource exactly when there is one |
| Address.EqualsIffSameParts | src/main/java/org/xmpp/packet/JID.java:479-513 | equals holds exactly when the three parts are equal, a null part equal only to null |
| Address.EqualsIsEquivalence | src/main/java/org/xmpp/packet/JID.java:479-513 | equals is reflexive, symmetric and transitive |
| Address.EqualsImpliesSameHash | src/main/java/org/xmpp/packet/JID.java:475-513 | equal addresses have the same string, hence the same hashCode |
| Address.CompareToAntisymmetric | src/main/java/org/xmpp/packet/JID.java:515-529 | compareTo(a, b) == -compareTo(b, a) |
| Address.CompareZeroLess | src/main/java/org/xmpp/packet/JID.java:517-526 | a zero and a negative String comparison chain to a negative one |
| Address.CompareToTransitive | src/main/java/org/xmpp/packet/JID.java:515-529 | compareTo is transitive on "less than" |
| Address.CompareToZeroIffEquals | src/main/java/org/xmpp/packet/JID.java:479-529 | compareTo is zero exactly when equals holds, for addresses with no empty part |
| Address.EmptyNodeComparesEqualToNull | src/main/java/org/xmpp/packet/JID.java:519-521 | an empty node compares equal to a null node although the addresses are not equal |
| Address.InitialCaches | src/main/java/org/xmpp/packet/JID.java:51-53 | three distinct empty caches with capacities 10000, 500 and 10000 |
| Address.InitialStateSound | src/main/java/org/xmpp/packet/JID.java:51-53 | the initial caches are sound for any profiles and within capacity |
| Address.ConstructTransparent | src/main/java/org/xmpp/packet/JID.java:268-346 | with sound caches the constructor builds what the profiles alone determine |
| Address.ConstructKeepsSound | src/main/java/org/xmpp/packet/JID.java:268-346 | with idempotent profiles, construction keeps the caches sound and within capacity |
| Address.JidSpecParts | src/main/java/org/xmpp/packet/JID.java:268-346 | null domain throws; skip mode keeps the parts verbatim; otherwise an empty node or resource becomes null, each part is its profile's output and fits, and construction fails exactly when a profile fails; cached strings agree with the parts |
| Address.CacheStrings | src/main/java/org/xmpp/packet/JID.java:329-345 | the buffer gives node@domain (or the domain) as the bare string, and the full string adds /resource only when there is a resource, else it is the bare string |
| Address.NewJid | src/main/java/org/xmpp/packet/JID.java:254-346 | the result and the three new cache states are those of `Construct`; the caches stay valid |
| Address.TextTransparent | src/main/java/org/xmpp/packet/JID.java:223-244 | with sound caches the string constructors build what getParts and the profiles determine, and keep the caches sound |
| Address.ParseJid | src/main/java/org/xmpp/packet/JID.java:223-244 | JID(String[, skip]) is getParts followed by the four-argument constructor, with getParts' exception passed on |
| Address.EqualsTextTransparent | src/main/java/org/xmpp/packet/JID.java:546-548 | the static equals answers from the profiles alone, because the first construction keeps the caches sound for the second |
| Address.EqualsText | src/main/java/org/xmpp/packet/JID.java:546-548 | builds jid1 and then jid2, propagating the first exception, and compares them with equals; with sound caches it agrees with the cache-free reference |
| Address.ReparsePrinted | src/main/java/org/xmpp/packet/JID.java:223-346 | with idempotent profiles, parsing an address's printed form rebuilds the same address (printable parts, non-empty resource) |

## Left out

- The stringprep profiles and IDNA ToASCII are not part of this model: they
  are parameters. Their idempotence is an assumption, stated as a
  predicate wherever a property depends on it.
- A Java String may hold an unpaired surrogate, but a model string, a
  sequence of Unicode code points, cannot. Strings with lone surrogates are
  therefore outside the model, for every operation.
- The "two bytes per code unit" rule is modelled as written. The true UTF-8
  length is not computed.
- Concurrency is left out: the concurrent queue and map of the cache, the
  `synchronized` block in `put`, and races between threads sharing the
  static caches.
- Exception messages are left out; only the exception kinds are modelled.
- Serialization is left out.
- The `instanceof` and identity tests at the head of `equals` are left out,
  because the model compares only addresses.
- The getters `getNode`, `getDomain` and `getResource` are the datatype's
  fields.
- A negative cache capacity is left out: capacities are `nat`. With a
  negative capacity, `put` would poll an empty queue.
- `Character.isWhitespace` is a fixed table, so changes between Unicode
  versions (such as U+180E) are not modelled.
- The cache's `NULL` sentinel value is left out: the key set stands for
  the map.
