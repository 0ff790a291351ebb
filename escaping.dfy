/** JID Escaping (XEP-0106, formerly JEP-0106): the reversible mapping between
    characters that nodeprep prohibits in a node and three-character escape
    sequences. Neither direction is ever applied by the address constructors. */
module Escaping {
  import opened Wrappers
  import opened JavaLang

  /** The nine characters of the table other than the space. */
  predicate IsTableChar(c: char)
  {
    c == '"' || c == '&' || c == '\'' || c == '/' || c == ':' ||
    c == '<' || c == '>' || c == '@' || c == '\\'
  }

  /** A character that escaping replaces: a table character or any whitespace. */
  predicate IsEscaped(c: char)
  {
    IsTableChar(c) || IsWhitespace(c)
  }

  /** The two code characters after a backslash for each escaped character;
      every kind of whitespace shares the code of the space. */
  function EscapeChar(c: char): (e: string)
  {
    match c
    case '"' => "\\22"
    case '&' => "\\26"
    case '\'' => "\\27"
    case '/' => "\\2f"
    case ':' => "\\3a"
    case '<' => "\\3c"
    case '>' => "\\3e"
    case '@' => "\\40"
    case '\\' => "\\5c"
    case _ => if IsWhitespace(c) then "\\20" else [c]
  }

  /** The inverse table: the character a backslash followed by c2 c3 stands
      for. Only the ten lower-case codes are recognised. */
  function DecodePair(c2: char, c3: char): Option<char>
  {
    if c2 == '2' then
      match c3
      case '0' => Some(' ')
      case '2' => Some('"')
      case '6' => Some('&')
      case '7' => Some('\'')
      case 'f' => Some('/')
      case _ => None
    else if c2 == '3' then
      match c3
      case 'a' => Some(':')
      case 'c' => Some('<')
      case 'e' => Some('>')
      case _ => None
    else if c2 == '4' then
      if c3 == '0' then Some('@') else None
    else if c2 == '5' then
      if c3 == 'c' then Some('\\') else None
    else None
  }

  /** What escapeNode computes, character by character. */
  function Escape(s: string): string
  {
    if s == [] then [] else EscapeChar(s[0]) + Escape(s[1..])
  }

  /** What unescapeNode computes: a backslash with at least two characters
      after it and a recognised code is decoded, anything else is copied and
      the scan resumes at the next character. */
  function Unescape(s: string): string
  {
    if s == [] then []
    else if s[0] == '\\' && |s| >= 3 && DecodePair(s[1], s[2]).Some? then
      [DecodePair(s[1], s[2]).value] + Unescape(s[3..])
    else [s[0]] + Unescape(s[1..])
  }

  /** Every whitespace character replaced by a space: what survives a round trip. */
  function SpaceFolded(s: string): (r: string)
    ensures |r| == |s|
  {
    if s == [] then []
    else [if IsWhitespace(s[0]) then ' ' else s[0]] + SpaceFolded(s[1..])
  }

  /** The number of characters of s that escaping replaces. */
  function EscapedCount(s: string): nat
  {
    if s == [] then 0 else (if IsEscaped(s[0]) then 1 else 0) + EscapedCount(s[1..])
  }

  // ---------------------------------------------------------------------------
  // The two methods, as loops over the input appending to a buffer.

  /** escapeNode: null maps to null; otherwise each character is replaced by
      its table entry. */
  method EscapeNode(node: Option<string>) returns (r: Option<string>)
    ensures node.None? <==> r.None?
    ensures node.Some? ==> r == Some(Escape(node.value))
  {
    if node.None? {
      return None;
    }
    var s := node.value;
    var buf: string := [];
    for i := 0 to |s|
      invariant buf + Escape(s[i..]) == Escape(s)
    {
      assert s[i..] == [s[i]] + s[i + 1..];
      buf := buf + EscapeChar(s[i]);
    }
    assert s[|s|..] == [] && buf + Escape([]) == buf;
    return Some(buf);
  }

  /** unescapeNode: null maps to null; the index advances by three over a
      recognised escape sequence and by one otherwise. */
  method UnescapeNode(node: Option<string>) returns (r: Option<string>)
    ensures node.None? <==> r.None?
    ensures node.Some? ==> r == Some(Unescape(node.value))
  {
    if node.None? {
      return None;
    }
    var s := node.value;
    var n := |s|;
    var buf: string := [];
    var i := 0;
    while i < n
      invariant 0 <= i <= n
      invariant buf + Unescape(s[i..]) == Unescape(s)
    {
      var c := s[i];
      UnescapeAt(s, i);
      if c == '\\' && i + 2 < n && DecodePair(s[i + 1], s[i + 2]).Some? {
        buf := buf + [DecodePair(s[i + 1], s[i + 2]).value];
        i := i + 3;
      } else {
        buf := buf + [c];
        i := i + 1;
      }
    }
    assert s[n..] == [] && buf + Unescape([]) == buf;
    return Some(buf);
  }

  /** One step of the unescaping scan, taken at position i. */
  lemma UnescapeAt(s: string, i: nat)
    requires i < |s|
    ensures Unescape(s[i..]) ==
      if s[i] == '\\' && i + 2 < |s| && DecodePair(s[i + 1], s[i + 2]).Some?
      then [DecodePair(s[i + 1], s[i + 2]).value] + Unescape(s[i + 3..])
      else [s[i]] + Unescape(s[i + 1..])
  {
    var t := s[i..];
    assert t[0] == s[i] && t[1..] == s[i + 1..];
    if i + 2 < |s| {
      assert t[1] == s[i + 1] && t[2] == s[i + 2] && t[3..] == s[i + 3..];
    }
  }

  // ---------------------------------------------------------------------------
  // Properties of the codec.

  lemma {:induction false} EscapeAppend(a: string, b: string)
    ensures Escape(a + b) == Escape(a) + Escape(b)
  {
    if a == [] {
      assert a + b == b;
    } else {
      assert (a + b)[0] == a[0] && (a + b)[1..] == a[1..] + b;
      EscapeAppend(a[1..], b);
    }
  }

  /** Decoding the escape of one character gives that character back, with
      whitespace folded to a space, and the rest of the input is untouched. */
  lemma UnescapeEscapeChar(c: char, t: string)
    ensures Unescape(EscapeChar(c) + t) == [if IsWhitespace(c) then ' ' else c] + Unescape(t)
  {
    var e := EscapeChar(c);
    if IsEscaped(c) {
      assert |e| == 3 && e[0] == '\\';
      assert (e + t)[3..] == t;
    } else {
      assert e == [c] && c != '\\';
      assert (e + t)[1..] == t;
    }
  }

  /** The unconditional round trip: unescaping an escaped node gives the node
      back with every whitespace character turned into a space. */
  lemma {:induction false} UnescapeEscapeFolds(s: string)
    ensures Unescape(Escape(s)) == SpaceFolded(s)
  {
    if s != [] {
      UnescapeEscapeChar(s[0], Escape(s[1..]));
      UnescapeEscapeFolds(s[1..]);
    }
  }

  lemma {:induction false} SpaceFoldedIdentity(s: string)
    requires forall i :: 0 <= i < |s| && IsWhitespace(s[i]) ==> s[i] == ' '
    ensures SpaceFolded(s) == s
  {
    if s != [] {
      SpaceFoldedIdentity(s[1..]);
    }
  }

  /** The round trip law: it holds exactly for nodes whose only whitespace
      character is the space. */
  lemma RoundTrip(s: string)
    requires forall i :: 0 <= i < |s| && IsWhitespace(s[i]) ==> s[i] == ' '
    ensures Unescape(Escape(s)) == s
  {
    UnescapeEscapeFolds(s);
    SpaceFoldedIdentity(s);
  }

  /** A tab is escaped to \20 and comes back as a space. */
  lemma TabDoesNotRoundTrip()
    ensures Escape("\t") == "\\20"
    ensures Unescape(Escape("\t")) == " "
  {
    UnescapeEscapeFolds("\t");
  }

  /** The output contains no whitespace and none of the characters " & ' / : < > @. */
  lemma {:induction false} EscapeHasNoProhibited(s: string)
    ensures forall i :: 0 <= i < |Escape(s)| ==>
      var c := Escape(s)[i];
      !IsWhitespace(c) && (IsTableChar(c) ==> c == '\\')
  {
    if s != [] {
      EscapeHasNoProhibited(s[1..]);
      var e, rest := EscapeChar(s[0]), Escape(s[1..]);
      forall i | 0 <= i < |e + rest|
        ensures !IsWhitespace((e + rest)[i]) && (IsTableChar((e + rest)[i]) ==> (e + rest)[i] == '\\')
      {
        if i >= |e| {
          assert (e + rest)[i] == rest[i - |e|];
        }
      }
    }
  }

  /** Every backslash in the output starts one of the ten table sequences. */
  lemma {:induction false} EscapeBackslashesAreCodes(s: string)
    ensures forall i :: 0 <= i < |Escape(s)| && Escape(s)[i] == '\\' ==>
      i + 2 < |Escape(s)| && DecodePair(Escape(s)[i + 1], Escape(s)[i + 2]).Some?
  {
    if s != [] {
      EscapeBackslashesAreCodes(s[1..]);
      var e, rest := EscapeChar(s[0]), Escape(s[1..]);
      forall i | 0 <= i < |e + rest| && (e + rest)[i] == '\\'
        ensures i + 2 < |e + rest| && DecodePair((e + rest)[i + 1], (e + rest)[i + 2]).Some?
      {
        if i >= |e| {
          assert (e + rest)[i] == rest[i - |e|];
          assert (e + rest)[i + 1] == rest[i + 1 - |e|];
          assert (e + rest)[i + 2] == rest[i + 2 - |e|];
        }
      }
    }
  }

  /** Each escaped character grows by two; everything else keeps its length. */
  lemma {:induction false} EscapeLength(s: string)
    ensures |Escape(s)| == |s| + 2 * EscapedCount(s)
  {
    if s != [] {
      EscapeLength(s[1..]);
    }
  }

  /** A node without table or whitespace characters is its own escape. */
  lemma {:induction false} EscapePlainIdentity(s: string)
    requires forall i :: 0 <= i < |s| ==> !IsEscaped(s[i])
    ensures Escape(s) == s
  {
    if s != [] {
      EscapePlainIdentity(s[1..]);
    }
  }

  /** Unescaping never lengthens its input. */
  lemma {:induction false} UnescapeNotLonger(s: string)
    ensures |Unescape(s)| <= |s|
  {
    if s != [] {
      if s[0] == '\\' && |s| >= 3 && DecodePair(s[1], s[2]).Some? {
        UnescapeNotLonger(s[3..]);
      } else {
        UnescapeNotLonger(s[1..]);
      }
    }
  }

  /** Input without a backslash is returned unchanged. */
  lemma {:induction false} UnescapeWithoutBackslash(s: string)
    requires '\\' !in s
    ensures Unescape(s) == s
  {
    if s != [] {
      assert s[0] in s;
      UnescapeWithoutBackslash(s[1..]);
    }
  }

  /** A backslash among the last two characters is copied literally. */
  lemma UnescapeShortTail(s: string)
    requires |s| <= 2
    ensures Unescape(s) == s
  {
    if s != [] {
      assert Unescape(s) == [s[0]] + Unescape(s[1..]);
      if |s| == 2 {
        assert Unescape(s[1..]) == [s[1]] + Unescape(s[2..]);
      }
    }
  }

  /** Codes are case-sensitive: the upper-case \2F is copied literally. */
  lemma UpperCaseCodeKept()
    ensures Unescape("\\2F") == "\\2F"
  {
    assert DecodePair('2', 'F') == None;
    UnescapeShortTail("2F");
  }

  /** After an unrecognised backslash the scan resumes at the very next
      character: in \\20 the second backslash starts the code. */
  lemma RescanAfterLiteralBackslash()
    ensures Unescape("\\\\20") == "\\ "
  {
    assert DecodePair('\\', '2') == None;
    assert "\\\\20"[1..] == "\\20";
    assert "\\20"[3..] == [];
  }

  /** A space between two plain words becomes \20 and nothing else changes,
      as in the documented example "Joe Smith" to "Joe\20Smith". */
  lemma EscapeSpaceBetween(a: string, b: string)
    requires forall i :: 0 <= i < |a| ==> !IsEscaped(a[i])
    requires forall i :: 0 <= i < |b| ==> !IsEscaped(b[i])
    ensures Escape(a + [' '] + b) == a + ['\\', '2', '0'] + b
  {
    EscapePlainIdentity(a);
    EscapePlainIdentity(b);
    var sp := [' '];
    assert Escape(sp) == ['\\', '2', '0'] by {
      assert sp[1..] == [];
    }
    EscapeAppend(a, sp);
    EscapeAppend(a + sp, b);
  }

  /** Unescaping passes over a prefix without backslashes unchanged. */
  lemma {:induction false} UnescapePlainPrefix(a: string, t: string)
    requires '\\' !in a
    ensures Unescape(a + t) == a + Unescape(t)
  {
    if a == [] {
      assert a + t == t;
    } else {
      assert a[0] in a && a[1..] + t == (a + t)[1..];
      assert '\\' !in a[1..] by {
        forall c | c in a[1..] ensures c in a { }
      }
      UnescapePlainPrefix(a[1..], t);
    }
  }

  /** Conversely the \20 between two words without backslashes becomes a
      space again. */
  lemma UnescapeSpaceBetween(a: string, b: string)
    requires '\\' !in a && '\\' !in b
    ensures Unescape(a + ['\\', '2', '0'] + b) == a + [' '] + b
  {
    var code := ['\\', '2', '0'];
    assert a + code + b == a + (code + b);
    UnescapePlainPrefix(a, code + b);
    assert (code + b)[3..] == b;
    UnescapeWithoutBackslash(b);
  }
}
