/** The few java.lang operations the address type relies on: the whitespace
    classification of Character, and indexOf, compareTo and hashCode of String.
    A Java String is modelled as a sequence of chars. */
module JavaLang {

  /** Character.isWhitespace: the Unicode space, line and paragraph separators
      other than the no-break spaces U+00A0, U+2007 and U+202F, together with
      the ASCII controls U+0009..U+000D and U+001C..U+001F. */
  predicate IsWhitespace(c: char)
  {
    var n := c as int;
    (0x09 <= n <= 0x0D) || (0x1C <= n <= 0x20) || n == 0x1680 ||
    (0x2000 <= n <= 0x2006) || (0x2008 <= n <= 0x200A) ||
    n == 0x2028 || n == 0x2029 || n == 0x205F || n == 0x3000
  }

  /** String.indexOf: the position of the first occurrence of c, or -1. */
  function IndexOf(s: string, c: char): (r: int)
    ensures -1 <= r < |s|
    ensures r == -1 <==> c !in s
    ensures 0 <= r ==> s[r] == c && c !in s[..r]
  {
    if s == [] then -1
    else if s[0] == c then 0
    else
      var k := IndexOf(s[1..], c);
      if k < 0 then -1
      else
        assert s[..k + 1] == [s[0]] + s[1..][..k];
        k + 1
  }

  // ---------------------------------------------------------------------------
  // A Java String is a sequence of UTF-16 code units: length, compareTo and
  // hashCode work on those units, not on code points.

  /** The UTF-16 encoding of one code point: itself below U+10000, a
      high-surrogate/low-surrogate pair above. */
  function Utf16(c: char): (u: seq<int>)
    ensures |u| == (if c as int < 0x10000 then 1 else 2)
  {
    var n := c as int;
    if n < 0x10000 then [n]
    else [0xD800 + (n - 0x10000) / 0x400, 0xDC00 + (n - 0x10000) % 0x400]
  }

  /** The UTF-16 code units of a string, as a Java String holds them. */
  function Units(s: string): seq<int>
  {
    if s == [] then [] else Utf16(s[0]) + Units(s[1..])
  }

  /** String.length: the number of UTF-16 code units. */
  function Length(s: string): nat
  {
    |Units(s)|
  }

  /** A code point outside the Basic Multilingual Plane counts twice. */
  lemma SupplementaryCountsTwice(c: char)
    requires c as int >= 0x10000
    ensures Length([c]) == 2
  {
    assert [c][0] == c && [c][1..] == [];
    assert Units([c]) == Utf16(c) + Units([]);
  }

  /** A string has between one and two code units per code point, exactly two
      when every code point lies outside the Basic Multilingual Plane. */
  lemma {:induction false} LengthBounds(s: string)
    ensures |s| <= Length(s) <= 2 * |s|
    ensures (forall i :: 0 <= i < |s| ==> s[i] as int >= 0x10000) ==> Length(s) == 2 * |s|
  {
    if s != [] {
      LengthBounds(s[1..]);
      assert Units(s) == Utf16(s[0]) + Units(s[1..]);
      if forall i :: 0 <= i < |s| ==> s[i] as int >= 0x10000 {
        assert forall i :: 0 <= i < |s[1..]| ==> s[1..][i] == s[i + 1];
      }
    }
  }

  /** The first unit tells a supplementary code point (a high surrogate) from
      any other one (never a surrogate). */
  lemma FirstUnitTellsKind(c: char, d: char)
    requires Utf16(c)[0] == Utf16(d)[0]
    ensures Utf16(c) == Utf16(d) ==> c == d
    ensures |Utf16(c)| == |Utf16(d)|
  {
  }

  /** Different strings have different code units. */
  lemma {:induction false} UnitsInjective(a: string, b: string)
    requires Units(a) == Units(b)
    ensures a == b
  {
    if a != [] && b != [] {
      var ua, ub := Utf16(a[0]), Utf16(b[0]);
      assert Units(a) == ua + Units(a[1..]) && Units(b) == ub + Units(b[1..]);
      assert ua[0] == Units(a)[0] && ub[0] == Units(b)[0];
      FirstUnitTellsKind(a[0], b[0]);
      assert ua == Units(a)[..|ua|] && ub == Units(b)[..|ub|];
      assert Units(a[1..]) == Units(a)[|ua|..] && Units(b[1..]) == Units(b)[|ub|..];
      UnitsInjective(a[1..], b[1..]);
      assert a == [a[0]] + a[1..] && b == [b[0]] + b[1..];
    }
  }

  /** The comparison loop of String.compareTo over code units: the difference
      of the first pair of units that differ, or else the difference of the
      lengths. */
  function CompareUnits(a: seq<int>, b: seq<int>): int
  {
    if a == [] || b == [] then |a| - |b|
    else if a[0] != b[0] then a[0] - b[0]
    else CompareUnits(a[1..], b[1..])
  }

  /** String.compareTo. */
  function CompareStrings(a: string, b: string): int
  {
    CompareUnits(Units(a), Units(b))
  }

  lemma {:induction false} CompareUnitsZeroIffEqual(a: seq<int>, b: seq<int>)
    ensures CompareUnits(a, b) == 0 <==> a == b
  {
    if a != [] && b != [] && a[0] == b[0] {
      CompareUnitsZeroIffEqual(a[1..], b[1..]);
      assert a == [a[0]] + a[1..] && b == [b[0]] + b[1..];
    }
  }

  lemma {:induction false} CompareUnitsAntisymmetric(a: seq<int>, b: seq<int>)
    ensures CompareUnits(a, b) == -CompareUnits(b, a)
  {
    if a != [] && b != [] && a[0] == b[0] {
      CompareUnitsAntisymmetric(a[1..], b[1..]);
    }
  }

  lemma {:induction false} CompareUnitsTransitive(a: seq<int>, b: seq<int>, c: seq<int>)
    requires CompareUnits(a, b) < 0 && CompareUnits(b, c) < 0
    ensures CompareUnits(a, c) < 0
  {
    if a != [] && b != [] && c != [] && a[0] == b[0] && b[0] == c[0] {
      CompareUnitsTransitive(a[1..], b[1..], c[1..]);
    }
  }

  /** compareTo is zero exactly on equal strings. */
  lemma CompareZeroIffEqual(a: string, b: string)
    ensures CompareStrings(a, b) == 0 <==> a == b
  {
    CompareUnitsZeroIffEqual(Units(a), Units(b));
    if Units(a) == Units(b) {
      UnitsInjective(a, b);
    }
  }

  lemma CompareAntisymmetric(a: string, b: string)
    ensures CompareStrings(a, b) == -CompareStrings(b, a)
  {
    CompareUnitsAntisymmetric(Units(a), Units(b));
  }

  lemma CompareTransitive(a: string, b: string, c: string)
    requires CompareStrings(a, b) < 0 && CompareStrings(b, c) < 0
    ensures CompareStrings(a, c) < 0
  {
    CompareUnitsTransitive(Units(a), Units(b), Units(c));
  }

  /** The order is that of code units, not of code points: U+10000 sorts
      before U+FFFF, because its first unit is the surrogate U+D800. */
  lemma SupplementarySortsBelowFFFF(c: char, d: char)
    requires c as int >= 0x10000 && d as int == 0xFFFF
    ensures CompareStrings([c], [d]) < 0
  {
    assert [c][1..] == [] && [d][1..] == [];
    assert Units([c]) == Utf16(c) && Units([d]) == Utf16(d);
  }

  const TwoTo32: int := 0x1_0000_0000
  const TwoTo31: int := 0x8000_0000

  /** A mathematical integer narrowed to a Java int: two's complement
      wrap-around at 32 bits. */
  function ToInt32(x: int): (r: int)
    ensures -TwoTo31 <= r < TwoTo31
    ensures (r - x) % TwoTo32 == 0
  {
    var w := x % TwoTo32;
    if w < TwoTo31 then w else w - TwoTo32
  }

  /** The running value of the hash loop of String.hashCode, h = 31 * h + u
      over the code units, kept as an unsigned 32-bit word. */
  function HashWord(u: seq<int>): (h: int)
    ensures 0 <= h < TwoTo32
  {
    if u == [] then 0
    else (31 * HashWord(u[..|u| - 1]) + u[|u| - 1]) % TwoTo32
  }

  /** String.hashCode: the hash word of the code units read as a Java int. */
  function StringHash(s: string): (h: int)
    ensures -TwoTo31 <= h < TwoTo31
    ensures (h - HashWord(Units(s))) % TwoTo32 == 0
  {
    ToInt32(HashWord(Units(s)))
  }
}
