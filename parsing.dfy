/** The textual form of an address, jid = [ node "@" ] domain [ "/" resource ]
    (section 3 of RFC 3920), and the raw parser that splits a text into its
    three parts without normalising them. */
module Parsing {
  import opened Wrappers
  import opened JavaLang

  /** The three strings getParts returns; any of them may be null. */
  datatype Parts = Parts(node: Option<string>, domain: Option<string>, resource: Option<string>)

  /** The two exceptions getParts can throw: its own IllegalArgumentException
      for an empty domain, and the StringIndexOutOfBoundsException of a
      substring call whose begin index lies past its end index. */
  datatype ParseError = EmptyDomain | IndexOutOfBounds

  /** The bare form: node@domain, or the domain alone. */
  function BareString(node: Option<string>, domain: string): string
  {
    if node.Some? then node.value + "@" + domain else domain
  }

  /** The full form: the bare form followed by /resource when there is one. */
  function FullString(node: Option<string>, domain: string, resource: Option<string>): string
  {
    if resource.Some? then BareString(node, domain) + "/" + resource.value
    else BareString(node, domain)
  }

  /** getParts: the node is the text before the first '@' when that '@' is
      not the first character, the domain runs from after the '@' (or the
      start) to the first '/' (or the end) provided that '/' is not the first
      character, and the resource is everything after the first '/'. */
  function GetParts(jid: Option<string>): Result<Parts, ParseError>
  {
    match jid
    case None => Ok(Parts(None, None, None))
    case Some(s) =>
      var atIndex := IndexOf(s, '@');
      var slashIndex := IndexOf(s, '/');
      var node := if atIndex > 0 then Some(s[..atIndex]) else None;
      if atIndex + 1 > |s| then Err(EmptyDomain)
      else if atIndex >= 0 && slashIndex > 0 && atIndex + 1 > slashIndex then
        // substring(atIndex + 1, slashIndex) with a begin index past the end index
        Err(IndexOutOfBounds)
      else
        var domain :=
          if atIndex < 0 then (if slashIndex > 0 then s[..slashIndex] else s)
          else if slashIndex > 0 then s[atIndex + 1..slashIndex]
          else s[atIndex + 1..];
        var resource :=
          if slashIndex + 1 > |s| || slashIndex < 0 then None
          else Some(s[slashIndex + 1..]);
        Ok(Parts(node, Some(domain), resource))
  }

  // ---------------------------------------------------------------------------
  // What getParts does, case by case.

  /** A null text gives three nulls. */
  lemma NullGivesNulls()
    ensures GetParts(None) == Ok(Parts(None, None, None))
  {
  }

  /** The empty-domain guard can never fire: an '@' index is always below the
      length, so the exception it would throw is never thrown. */
  lemma EmptyDomainNeverThrown(jid: Option<string>)
    ensures GetParts(jid) != Err(EmptyDomain)
  {
  }

  /** getParts throws exactly when a '/' that is not the first character comes
      before the first '@'. */
  lemma ThrowsIffSlashBeforeAt(s: string)
    ensures GetParts(Some(s)).Err? <==> 0 < IndexOf(s, '/') < IndexOf(s, '@')
  {
  }

  /** Where getParts succeeds, the node is the non-empty '@'-free text before
      the first '@', present exactly when the text has an '@' that is not its
      first character; a leading '@' is dropped. */
  lemma NodeIsPrefixBeforeAt(s: string)
    requires GetParts(Some(s)).Ok?
    ensures var p := GetParts(Some(s)).value;
      (p.node.Some? <==> '@' in s && s[0] != '@') &&
      (p.node.Some? ==> |p.node.value| > 0 && '@' !in p.node.value &&
                        s[..|p.node.value| + 1] == p.node.value + "@")
  {
    var p := GetParts(Some(s)).value;
    if '@' in s && s[0] != '@' {
      var at := IndexOf(s, '@');
      assert s[..at + 1] == s[..at] + "@";
    }
  }

  /** Where getParts succeeds, the resource is present exactly when the text
      has a '/', and it is then the whole text after the first '/' - so a
      trailing '/' gives an empty resource, not a null one. */
  lemma ResourceIsSuffixAfterSlash(s: string)
    requires GetParts(Some(s)).Ok?
    ensures var p := GetParts(Some(s)).value;
      (p.resource.Some? <==> '/' in s) &&
      (p.resource.Some? ==> exists k :: 0 <= k < |s| && s[k] == '/' && '/' !in s[..k] &&
                                         p.resource.value == s[k + 1..])
  {
    var p := GetParts(Some(s)).value;
    if '/' in s {
      var k := IndexOf(s, '/');
      assert s[k] == '/' && '/' !in s[..k] && p.resource.value == s[k + 1..];
    }
  }

  /** "a/" parses to the domain "a" and the empty resource. */
  lemma TrailingSlashGivesEmptyResource()
    ensures GetParts(Some("a/")) == Ok(Parts(None, Some("a"), Some("")))
  {
    var s := "a/";
    IndexOfAbsent(s, '@');
    IndexOfAt(s, '/', 1);
    assert s[..1] == "a" && s[2..] == "";
  }

  /** A text ending in its only '@' parses without error, to an empty
      domain: "example.com@" gives the node "example.com" and the domain "". */
  lemma TrailingAtGivesEmptyDomain(n: string)
    requires n != [] && '@' !in n && '/' !in n
    ensures GetParts(Some(n + "@")) == Ok(Parts(Some(n), Some(""), None))
  {
    var s := n + "@";
    assert s[..|n|] == n && s[|n|] == '@';
    IndexOfAt(s, '@', |n|);
    assert '/' !in s;
    IndexOfAbsent(s, '/');
    assert s[|n| + 1..] == "";
  }

  /** "a/b@c" makes getParts throw instead of reading a resource "b@c". */
  lemma SlashBeforeAtThrows()
    ensures GetParts(Some("a/b@c")) == Err(IndexOutOfBounds)
  {
    var s := "a/b@c";
    assert IndexOf(s, '@') == 3;
    assert IndexOf(s, '/') == 1;
  }

  /** A leading '/' does not make getParts throw: "/a@b" gives the node "/a",
      the domain "b" and the resource "a@b". */
  lemma LeadingSlashDoesNotThrow()
    ensures GetParts(Some("/a@b")) == Ok(Parts(Some("/a"), Some("b"), Some("a@b")))
  {
    var s := "/a@b";
    IndexOfAt(s, '@', 2);
    IndexOfAt(s, '/', 0);
    assert s[..2] == "/a" && s[3..] == "b" && s[1..] == "a@b";
  }

  // ---------------------------------------------------------------------------
  // Parsing the printed form gives the parts back.

  /** IndexOf is pinned down by any position holding the first occurrence. */
  lemma IndexOfAt(s: string, c: char, k: int)
    requires 0 <= k < |s| && s[k] == c && c !in s[..k]
    ensures IndexOf(s, c) == k
  {
  }

  lemma IndexOfAbsent(s: string, c: char)
    requires c !in s
    ensures IndexOf(s, c) == -1
  {
  }

  /** The shape of parts whose full form getParts splits back into them: a
      node, when present, is non-empty and holds neither '@' nor '/'; the
      domain is non-empty and holds neither '@' nor '/'; a resource may hold
      anything, except an '@' when there is no node. */
  predicate Printable(node: Option<string>, domain: string, resource: Option<string>)
  {
    (node.Some? ==> node.value != [] && '@' !in node.value && '/' !in node.value) &&
    domain != [] && '@' !in domain && '/' !in domain &&
    (node.None? && resource.Some? ==> '@' !in resource.value)
  }

  /** getParts splits the full form of printable parts back into those parts. */
  lemma {:induction false} ParseFullString(node: Option<string>, domain: string, resource: Option<string>)
    requires Printable(node, domain, resource)
    ensures GetParts(Some(FullString(node, domain, resource))) == Ok(Parts(node, Some(domain), resource))
  {
    var s := FullString(node, domain, resource);
    var b := BareString(node, domain);
    // where the first '@' is
    if node.Some? {
      var n := node.value;
      assert b == n + "@" + domain;
      assert s[..|n|] == n && s[|n|] == '@';
      IndexOfAt(s, '@', |n|);
      assert s[..|n|] == n;
    } else {
      assert b == domain;
      assert '@' !in s by {
        if resource.Some? {
          assert s == domain + "/" + resource.value;
          forall i | 0 <= i < |s| ensures s[i] != '@' {
            if i < |domain| {
              assert s[i] == domain[i];
            } else if i > |domain| {
              assert s[i] == resource.value[i - |domain| - 1];
            }
          }
        }
      }
      IndexOfAbsent(s, '@');
    }
    // where the first '/' is
    assert '/' !in b by {
      forall i | 0 <= i < |b| ensures b[i] != '/' {
        if node.Some? {
          var n := node.value;
          if i < |n| {
            assert b[i] == n[i];
          } else if i > |n| {
            assert b[i] == domain[i - |n| - 1];
          }
        }
      }
    }
    if resource.Some? {
      assert s == b + "/" + resource.value;
      assert s[..|b|] == b && s[|b|] == '/';
      IndexOfAt(s, '/', |b|);
      assert s[|b| + 1..] == resource.value;
      if node.Some? {
        assert s[|node.value| + 1..|b|] == domain;
      } else {
        assert s[..|b|] == domain;
      }
    } else {
      assert s == b;
      IndexOfAbsent(s, '/');
      if node.Some? {
        assert s[|node.value| + 1..] == domain;
      }
    }
  }
}
