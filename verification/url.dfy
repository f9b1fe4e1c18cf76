/**
 * The URL utilities. `normalizeUrl` is pure string rewriting; the other
 * utilities wrap `new URL(u)`, the basic URL parser of the WHATWG URL
 * Standard (section 4.4), which the model takes as a parameter: a `Parser`
 * is any function from a string to the parts of the URL object, or None where
 * the constructor throws.
 */
module Url {
  import opened Wrappers
  import opened Text

  /** The fields of a WHATWG URL object the utilities read; `protocol` keeps its trailing ':'. */
  datatype UrlRecord = UrlRecord(protocol: string, hostname: string, pathname: string, search: string, hash: string)

  /** `new URL(u)`: the parsed URL, or None where the constructor throws a TypeError. */
  type Parser = string -> Option<UrlRecord>

  /** What `parseUrl` returns: the protocol without its ':', and `isValid`. */
  datatype ParsedUrl = ParsedUrl(protocol: string, domain: string, path: string, query: string, fragment: string, isValid: bool)

  /** `getDomain`: the hostname, or "" for an unparsable string. */
  function GetDomain(parse: Parser, u: string): (r: string)
    ensures parse(u).Some? ==> r == parse(u).value.hostname
    ensures parse(u).None? ==> r == ""
  {
    match parse(u)
    case Some(rec) => rec.hostname
    case None => ""
  }

  /** `getProtocol`: the scheme with its ':' ("https:"), or "" for an unparsable string. */
  function GetProtocol(parse: Parser, u: string): (r: string)
    ensures parse(u).Some? ==> r == parse(u).value.protocol
    ensures parse(u).None? ==> r == ""
  {
    match parse(u)
    case Some(rec) => rec.protocol
    case None => ""
  }

  /** `getProtocolClean`: the protocol with its first ':' removed, or "" for an unparsable string. */
  function GetProtocolClean(parse: Parser, u: string): (r: string)
    ensures parse(u).None? ==> r == ""
    ensures parse(u).Some? && ':' !in parse(u).value.protocol ==> r == parse(u).value.protocol
    ensures |r| <= |GetProtocol(parse, u)|
  {
    match parse(u)
    case Some(rec) => RemoveFirst(rec.protocol, ':')
    case None => ""
  }

  /** `getBaseUrl`: protocol, "//" and hostname ("https://example.com"), or "" for an unparsable string. */
  function GetBaseUrl(parse: Parser, u: string): (r: string)
    ensures parse(u).Some? ==> r == parse(u).value.protocol + "//" + parse(u).value.hostname
    ensures parse(u).None? ==> r == ""
  {
    match parse(u)
    case Some(rec) => rec.protocol + "//" + rec.hostname
    case None => ""
  }

  /** `parseUrl`: the five parts and `isValid == true`, or five empty strings and `isValid == false`. */
  function ParseUrl(parse: Parser, u: string): (r: ParsedUrl)
    ensures r.isValid <==> parse(u).Some?
    ensures !r.isValid ==> r == ParsedUrl("", "", "", "", "", false)
    ensures r.isValid ==> r.path == parse(u).value.pathname && r.query == parse(u).value.search
                          && r.fragment == parse(u).value.hash
  {
    match parse(u)
    case Some(rec) => ParsedUrl(RemoveFirst(rec.protocol, ':'), rec.hostname, rec.pathname, rec.search, rec.hash, true)
    case None => ParsedUrl("", "", "", "", "", false)
  }

  /** `isValidUrl`: whether the constructor accepts `u`. */
  function IsValidUrl(parse: Parser, u: string): (r: bool)
    ensures r <==> parse(u).Some?
  {
    parse(u).Some?
  }

  /**
   * The wrappers agree with one another for every parser and every string:
   * `isValidUrl` is `parseUrl(..).isValid`; `getProtocolClean` and
   * `parseUrl(..).protocol` are `getProtocol` with its first ':' removed;
   * `getDomain` is `parseUrl(..).domain`; and `getBaseUrl` is "" for an
   * unparsable string and protocol + "//" + domain otherwise.
   */
  lemma WrappersAgree(parse: Parser, u: string)
    ensures IsValidUrl(parse, u) == ParseUrl(parse, u).isValid
    ensures GetProtocolClean(parse, u) == RemoveFirst(GetProtocol(parse, u), ':')
    ensures ParseUrl(parse, u).protocol == RemoveFirst(GetProtocol(parse, u), ':')
    ensures GetDomain(parse, u) == ParseUrl(parse, u).domain
    ensures !IsValidUrl(parse, u) ==> GetBaseUrl(parse, u) == ""
    ensures IsValidUrl(parse, u) ==> GetBaseUrl(parse, u) == GetProtocol(parse, u) + "//" + GetDomain(parse, u)
  {
  }

  /**
   * For a parser that always yields a protocol ending in ':' (as the WHATWG
   * parser does), `getBaseUrl` is never empty for a valid URL, so it is ""
   * exactly when the input does not parse.
   */
  lemma BaseUrlEmptyIffInvalid(parse: Parser, u: string)
    requires parse(u).Some? ==> EndsWith(parse(u).value.protocol, ":")
    ensures GetBaseUrl(parse, u) == "" <==> !IsValidUrl(parse, u)
  {
    if parse(u).Some? {
      assert |GetBaseUrl(parse, u)| >= 2;
    }
  }

  /**
   * The regex rewrites `url.replace(/^https?:\/\//, '')`, then
   * `.replace(/^www\./, '')`, then `.replace(/\/$/, '')`: at most one scheme
   * prefix, then at most one "www.", then at most one trailing '/'.
   */
  function StripDecorations(s: string): (r: string)
    ensures exists i :: OccursAt(s, r, i)
    ensures |r| <= |s|
  {
    var a := if StartsWith(s, "https://") then s[8..] else DropPrefix(s, "http://");
    var b := DropPrefix(a, "www.");
    var c := DropSuffix(b, "/");
    SuffixOfDrop(s, "http://");
    SuffixOfDrop(a, "www.");
    SuffixOfSuffix(s, a, b);
    PrefixOfDrop(b, "/");
    InfixOfSuffixPrefix(s, b, c);
    c
  }

  lemma SuffixOfSuffix(s: string, a: string, b: string)
    requires |a| <= |s| && a == s[|s| - |a|..]
    requires |b| <= |a| && b == a[|a| - |b|..]
    ensures b == s[|s| - |b|..]
  {
  }

  lemma PrefixOfDrop(s: string, p: string)
    ensures |DropSuffix(s, p)| <= |s|
    ensures DropSuffix(s, p) == s[..|DropSuffix(s, p)|]
  {
    if EndsWith(s, p) {
      assert (DropSuffix(s, p) + p)[..|DropSuffix(s, p)|] == DropSuffix(s, p);
    }
  }

  lemma InfixOfSuffixPrefix(s: string, b: string, c: string)
    requires |b| <= |s| && b == s[|s| - |b|..]
    requires |c| <= |b| && c == b[..|c|]
    ensures OccursAt(s, c, |s| - |b|)
  {
    assert s[|s| - |b|..|s| - |b| + |c|] == s[|s| - |b|..][..|c|];
  }

  lemma SuffixOfDrop(s: string, p: string)
    ensures DropPrefix(s, p) == s[|s| - |DropPrefix(s, p)|..]
  {
    if StartsWith(s, p) {
      assert (p + DropPrefix(s, p))[|p|..] == DropPrefix(s, p);
    }
  }

  /** `normalizeUrl` of the utilities: trim, then `StripDecorations`. */
  function NormalizeUrl(s: string): (r: string)
    ensures exists i :: OccursAt(Trim(s), r, i)
    ensures |r| <= |Trim(s)| <= |s|
  {
    StripDecorations(Trim(s))
  }

  /**
   * A host name without decorations is its own normal form, and decorating it
   * with scheme, "www." and a trailing '/' (and surrounding spaces) does not
   * change the normal form: normalizeUrl(" https://www.example.com/ ") ==
   * normalizeUrl("example.com") == "example.com".
   */
  lemma {:induction false} NormalizeDecorated(h: string, pre: string, post: string, scheme: string)
    requires h != [] && !IsSpace(h[0]) && !IsSpace(h[|h| - 1])
    requires !StartsWith(h, "http://") && !StartsWith(h, "https://") && !StartsWith(h, "www.") && !EndsWith(h, "/")
    requires scheme == "http://" || scheme == "https://"
    requires forall k | 0 <= k < |pre| :: IsSpace(pre[k])
    requires forall k | 0 <= k < |post| :: IsSpace(post[k])
    ensures NormalizeUrl(h) == h
    ensures NormalizeUrl(pre + scheme + "www." + h + "/" + post) == h
  {
    TrimOfUnpadded(h);
    StripPlain(h);
    var d := scheme + "www." + h + "/";
    assert d[0] == 'h' && d[|d| - 1] == '/';
    assert pre + scheme + "www." + h + "/" + post == pre + d + post;
    TrimPadded(pre, d, post);
    StripFull(h, scheme);
  }

  lemma TrimOfUnpadded(s: string)
    requires s != [] && !IsSpace(s[0]) && !IsSpace(s[|s| - 1])
    ensures Trim(s) == s
  {
    assert s[0..|s|] == s;
    TrimUnique(s, s, 0);
  }

  lemma TrimPadded(pre: string, d: string, post: string)
    requires d != [] && !IsSpace(d[0]) && !IsSpace(d[|d| - 1])
    requires forall k | 0 <= k < |pre| :: IsSpace(pre[k])
    requires forall k | 0 <= k < |post| :: IsSpace(post[k])
    ensures Trim(pre + d + post) == d
  {
    var s := pre + d + post;
    var j := |pre| + |d|;
    assert s[|pre|..j] == d;
    forall k | 0 <= k < |pre|
      ensures IsSpace(s[k])
    {
      assert s[k] == pre[k];
    }
    forall k | j <= k < |s|
      ensures IsSpace(s[k])
    {
      assert s[k] == post[k - j];
    }
    assert TrimmedAt(s, d, |pre|);
    TrimUnique(s, d, |pre|);
  }

  lemma StripPlain(h: string)
    requires !StartsWith(h, "http://") && !StartsWith(h, "https://") && !StartsWith(h, "www.") && !EndsWith(h, "/")
    ensures StripDecorations(h) == h
  {
  }

  lemma StripFull(h: string, scheme: string)
    requires !StartsWith(h, "www.") && !EndsWith(h, "/") && h != []
    requires scheme == "http://" || scheme == "https://"
    ensures StripDecorations(scheme + "www." + h + "/") == h
  {
    SchemeDropped(scheme + "www." + h + "/", scheme, "www." + h + "/");
    HostDecorationsDropped(h);
  }

  /** The "www." and trailing '/' steps of the rewrites leave the bare host name. */
  lemma HostDecorationsDropped(h: string)
    requires h != []
    ensures DropSuffix(DropPrefix("www." + h + "/", "www."), "/") == h
  {
    var a := "www." + h + "/";
    assert StartsWith(a, "www.") by { assert a[..4] == "www."; }
    var b := a[4..];
    assert b == h + "/";
    assert EndsWith(b, "/");
    assert b[..|b| - 1] == h;
  }

  /** The scheme step of the rewrites removes exactly a leading "http://" or "https://". */
  lemma SchemeDropped(s: string, scheme: string, a: string)
    requires scheme == "http://" || scheme == "https://"
    requires s == scheme + a
    ensures (if StartsWith(s, "https://") then s[8..] else DropPrefix(s, "http://")) == a
  {
    if scheme == "http://" {
      assert !StartsWith(s, "https://") by { assert s[4] == ':'; }
      assert StartsWith(s, "http://") by { assert s[..7] == scheme; }
      assert s[7..] == a;
    } else {
      assert StartsWith(s, "https://") by { assert s[..8] == scheme; }
      assert s[8..] == a;
    }
  }
}
