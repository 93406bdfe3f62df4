/**
 * The hostname a bookmark's thumbnail falls back to: the first match of the case-insensitive,
 * unanchored pattern `https?://(?:www\.)?([^/?]+)` in the url, and the favicon address built from it.
 */
module Hostname {
  import opened Wrappers
  import opened Text

  /** The characters the host capture `[^/?]+` cannot contain. */
  predicate IsStop(c: char)
  {
    c == '/' || c == '?'
  }

  /** `http://` or `https://`, in any ASCII case, spans url[p..q]. */
  predicate SchemeAt(url: string, p: nat, q: nat)
  {
    p <= q <= |url|
    && ((q == p + 7 && SameIgnoringCase(url[p..p + 4], "http") && url[p + 4..q] == "://")
        || (q == p + 8 && SameIgnoringCase(url[p..p + 5], "https") && url[p + 5..q] == "://"))
  }

  /** `www.`, in any ASCII case, starts at q. */
  predicate WwwAt(url: string, q: nat)
  {
    q + 4 <= |url| && SameIgnoringCase(url[q..q + 4], "www.")
  }

  /** `h` is the longest non-empty run of non-stop characters starting at q. */
  predicate HostAt(url: string, q: nat, h: string)
  {
    0 < |h| && q + |h| <= |url| && url[q..q + |h|] == h
    && (forall i :: 0 <= i < |h| ==> !IsStop(h[i]))
    && (q + |h| == |url| || IsStop(url[q + |h|]))
  }

  /** What a scheme spanning url[p..q] says about the characters the engine inspects. */
  lemma SchemeAtFacts(url: string, p: nat)
    ensures forall q: nat :: SchemeAt(url, p, q) ==>
      (p + 4 <= |url| && SameIgnoringCase(url[p..p + 4], "http")
       && (q == p + 7 ==> url[p + 4] == ':' && url[p + 4..p + 7] == "://")
       && (q == p + 8 ==> LowerChar(url[p + 4]) == 's' && url[p + 5..p + 8] == "://"))
  {
    forall q: nat | SchemeAt(url, p, q)
      ensures p + 4 <= |url| && SameIgnoringCase(url[p..p + 4], "http")
    {
      if q == p + 8 {
        assert url[p..p + 4] == url[p..p + 5][..4];
      }
    }
    forall q: nat | SchemeAt(url, p, q) && q == p + 8
      ensures LowerChar(url[p + 4]) == 's'
    {
      assert url[p..p + 5][4] == url[p + 4];
    }
    forall q: nat | SchemeAt(url, p, q) && q == p + 7
      ensures url[p + 4] == ':'
    {
      assert url[p + 4..q][0] == url[p + 4];
    }
  }

  /**
   * How the engine matches `https?://` at p: after `http`, the greedy `s?` takes an `s` when there is one;
   * giving it back cannot help, because `:` would then have to match that `s`.
   */
  function SchemeEnd(url: string, p: nat): (r: Option<nat>)
    ensures forall q: nat :: SchemeAt(url, p, q) <==> r == Some(q)
  {
    SchemeAtFacts(url, p);
    if p + 4 <= |url| && SameIgnoringCase(url[p..p + 4], "http") then
      var q := if p + 4 < |url| && LowerChar(url[p + 4]) == 's' then p + 5 else p + 4;
      assert q == p + 5 ==> url[p..p + 4] == url[p..p + 5][..4];
      if q + 3 <= |url| && url[q..q + 3] == "://" then Some(q + 3)
      else None
    else None
  }

  /** The end of the run of non-stop characters starting at q. */
  function RunEnd(url: string, q: nat): (e: nat)
    requires q <= |url|
    ensures q <= e <= |url|
    ensures forall i :: q <= i < e ==> !IsStop(url[i])
    ensures e == |url| || IsStop(url[e])
    decreases |url| - q
  {
    if q == |url| || IsStop(url[q]) then q else RunEnd(url, q + 1)
  }

  /** The run found by RunEnd is the longest one. */
  lemma RunIsHost(url: string, q: nat)
    requires q < |url| && !IsStop(url[q])
    ensures HostAt(url, q, url[q..RunEnd(url, q)])
  {
  }

  /** `h` is what `(?:www\.)?([^/?]+)` captures at q: the host after `www.` when one follows it, else the host at q. */
  predicate HostAfter(url: string, q: nat, h: string)
  {
    if WwwAt(url, q) && q + 4 < |url| && !IsStop(url[q + 4]) then HostAt(url, q + 4, h) else HostAt(url, q, h)
  }

  /**
   * The capture group when the whole pattern is matched starting at p. The optional `www.` is taken
   * when a non-empty host follows it; otherwise it is given back and becomes part of the host.
   */
  function MatchAt(url: string, p: nat): (r: Option<string>)
    ensures r.Some? <==> exists q: nat :: SchemeAt(url, p, q) && q < |url| && !IsStop(url[q])
    ensures r.Some? ==> exists q: nat :: SchemeAt(url, p, q) && HostAfter(url, q, r.value)
  {
    match SchemeEnd(url, p)
    case None => None
    case Some(q) =>
      if WwwAt(url, q) && q + 4 < |url| && !IsStop(url[q + 4]) then
        RunIsHost(url, q + 4);
        assert HostAfter(url, q, url[q + 4..RunEnd(url, q + 4)]);
        Some(url[q + 4..RunEnd(url, q + 4)])
      else if q < |url| && !IsStop(url[q]) then
        RunIsHost(url, q);
        assert HostAfter(url, q, url[q..RunEnd(url, q)]);
        Some(url[q..RunEnd(url, q)])
      else None
  }

  /** The leftmost position from p on where the pattern matches. */
  function FirstMatch(url: string, p: nat): (r: Option<nat>)
    requires p <= |url|
    ensures r.Some? ==> p <= r.value <= |url| && MatchAt(url, r.value).Some?
    ensures r.Some? ==> forall j :: p <= j < r.value ==> MatchAt(url, j).None?
    ensures r.None? ==> forall j :: p <= j <= |url| ==> MatchAt(url, j).None?
    decreases |url| - p
  {
    if MatchAt(url, p).Some? then Some(p)
    else if p == |url| then None
    else FirstMatch(url, p + 1)
  }

  /** getHostnameFromUrl: the capture group of the first match, or null when the pattern does not match. */
  function GetHostnameFromUrl(url: string): (r: Option<string>)
    ensures r.None? <==> forall p: nat, q: nat :: SchemeAt(url, p, q) ==> q == |url| || IsStop(url[q])
    ensures r.Some? ==> 0 < |r.value| && forall i :: 0 <= i < |r.value| ==> !IsStop(r.value[i])
    ensures r.Some? ==> exists p: nat :: p <= |url| && MatchAt(url, p) == r && forall j :: 0 <= j < p ==> MatchAt(url, j).None?
  {
    match FirstMatch(url, 0)
    case None =>
      assert forall p: nat, q: nat :: SchemeAt(url, p, q) ==> p <= |url| && MatchAt(url, p).None?;
      None
    case Some(p) =>
      MatchAt(url, p)
  }

  /** Matching only looks at letters up to ASCII case: urls equal up to case give hosts equal up to case. */
  lemma {:induction false} MatchAtIgnoresCase(u1: string, u2: string, p: nat)
    requires SameIgnoringCase(u1, u2)
    ensures MatchAt(u1, p).Some? <==> MatchAt(u2, p).Some?
    ensures MatchAt(u1, p).Some? ==> SameIgnoringCase(MatchAt(u1, p).value, MatchAt(u2, p).value)
  {
    StopsIgnoreCase(u1, u2);
    forall q: nat | SchemeAt(u1, p, q)
      ensures SchemeAt(u2, p, q)
    {
      SchemeIgnoresCase(u1, u2, p, q);
    }
    forall q: nat | SchemeAt(u2, p, q)
      ensures SchemeAt(u1, p, q)
    {
      SchemeIgnoresCase(u2, u1, p, q);
    }
    match SchemeEnd(u1, p)
    case None =>
    case Some(q) =>
      assert SchemeEnd(u2, p) == Some(q);
      if q + 4 <= |u1| { SlicesIgnoreCase(u1, u2, q, q + 4); }
      assert WwwAt(u1, q) == WwwAt(u2, q);
      RunEndIgnoresCase(u1, u2, q);
      if q + 4 <= |u1| { RunEndIgnoresCase(u1, u2, q + 4); }
      var s := if WwwAt(u1, q) && q + 4 < |u1| && !IsStop(u1[q + 4]) then q + 4 else q;
      if s < |u1| && !IsStop(u1[s]) {
        SlicesIgnoreCase(u1, u2, s, RunEnd(u1, s));
      }
  }

  /** A character equal to `/`, `?` or `:` up to ASCII case is that character. */
  lemma StopsIgnoreCase(u1: string, u2: string)
    requires SameIgnoringCase(u1, u2)
    ensures forall i :: 0 <= i < |u1| ==> IsStop(u1[i]) == IsStop(u2[i])
    ensures forall i :: 0 <= i < |u1| ==> (u1[i] == ':') == (u2[i] == ':')
  {
  }

  lemma SchemeIgnoresCase(u1: string, u2: string, p: nat, q: nat)
    requires SameIgnoringCase(u1, u2) && SchemeAt(u1, p, q)
    ensures SchemeAt(u2, p, q)
  {
    StopsIgnoreCase(u1, u2);
    SlicesIgnoreCase(u1, u2, p, p + 4);
    if q == p + 8 { SlicesIgnoreCase(u1, u2, p, p + 5); }
    assert u1[q - 3..q] == "://";
    assert u1[q - 3] == ':' && u1[q - 2] == '/' && u1[q - 1] == '/';
    assert u2[q - 3..q] == "://";
  }

  lemma SlicesIgnoreCase(u1: string, u2: string, i: nat, j: nat)
    requires SameIgnoringCase(u1, u2) && i <= j <= |u1|
    ensures SameIgnoringCase(u1[i..j], u2[i..j])
  {
  }

  lemma {:induction false} RunEndIgnoresCase(u1: string, u2: string, q: nat)
    requires SameIgnoringCase(u1, u2) && q <= |u1|
    ensures RunEnd(u1, q) == RunEnd(u2, q)
    decreases |u1| - q
  {
    StopsIgnoreCase(u1, u2);
    if q < |u1| && !IsStop(u1[q]) {
      RunEndIgnoresCase(u1, u2, q + 1);
    }
  }

  lemma {:induction false} FirstMatchIgnoresCase(u1: string, u2: string, p: nat)
    requires SameIgnoringCase(u1, u2) && p <= |u1|
    ensures FirstMatch(u1, p) == FirstMatch(u2, p)
    decreases |u1| - p
  {
    MatchAtIgnoresCase(u1, u2, p);
    if MatchAt(u1, p).None? && p < |u1| {
      FirstMatchIgnoresCase(u1, u2, p + 1);
    }
  }

  /** The scheme and `www.` match in any case: urls equal up to case find the same host up to case. */
  lemma HostnameIgnoresCase(u1: string, u2: string)
    requires SameIgnoringCase(u1, u2)
    ensures GetHostnameFromUrl(u1).Some? <==> GetHostnameFromUrl(u2).Some?
    ensures GetHostnameFromUrl(u1).Some? ==> SameIgnoringCase(GetHostnameFromUrl(u1).value, GetHostnameFromUrl(u2).value)
  {
    FirstMatchIgnoresCase(u1, u2, 0);
    if FirstMatch(u1, 0).Some? {
      MatchAtIgnoresCase(u1, u2, FirstMatch(u1, 0).value);
    }
  }

  /** Two captures at the same position are the same: the host run is the longest one. */
  lemma HostAtUnique(url: string, q: nat, h1: string, h2: string)
    requires HostAt(url, q, h1) && HostAt(url, q, h2)
    ensures h1 == h2
  {
    assert forall i :: 0 <= i < |h1| ==> url[q + i] == h1[i];
    assert forall i :: 0 <= i < |h2| ==> url[q + i] == h2[i];
  }

  /** The result when the pattern first matches at p, with scheme url[p..q] and capture h. */
  lemma FoundAt(url: string, p: nat, q: nat, h: string)
    requires SchemeAt(url, p, q) && HostAfter(url, q, h)
    requires forall j :: 0 <= j < p ==> MatchAt(url, j).None?
    ensures GetHostnameFromUrl(url) == Some(h)
  {
    if WwwAt(url, q) {
      assert LowerChar(url[q..q + 4][0]) == 'w';
    }
    assert MatchAt(url, p).Some?;
    var k := FirstMatch(url, 0);
    assert k == Some(p);
    var q': nat :| SchemeAt(url, p, q') && HostAfter(url, q', MatchAt(url, p).value);
    assert SchemeEnd(url, p) == Some(q);
    assert SchemeEnd(url, p) == Some(q');
    if WwwAt(url, q) && q + 4 < |url| && !IsStop(url[q + 4]) {
      HostAtUnique(url, q + 4, h, MatchAt(url, p).value);
    } else {
      HostAtUnique(url, q, h, MatchAt(url, p).value);
    }
  }

  /** No match starts at a position that does not hold an `h` or `H`. */
  lemma NotHttpAt(url: string, j: nat)
    requires j < |url| ==> url[j] != 'h' && url[j] != 'H'
    ensures MatchAt(url, j).None?
  {
    SchemeAtFacts(url, j);
    if j + 4 <= |url| {
      assert url[j..j + 4][0] == url[j];
    }
  }

  /** No match starts at a scheme followed by the end or by a stop character. */
  lemma StopAfterScheme(url: string, p: nat, q: nat)
    requires SchemeAt(url, p, q) && (q == |url| || IsStop(url[q]))
    ensures MatchAt(url, p).None?
  {
    assert SchemeEnd(url, p) == Some(q);
  }

  /** A scheme at the front of a string stays a scheme when text is appended. */
  lemma SchemePrefix(s: string, q: nat, t: string)
    requires SchemeAt(s, 0, q)
    ensures SchemeAt(s + t, 0, q)
  {
    var u := s + t;
    assert u[0..4] == s[0..4];
    if q == 8 {
      assert u[0..5] == s[0..5] && u[5..8] == s[5..8];
    } else {
      assert u[4..7] == s[4..7];
    }
  }

  /** A non-empty stop-free host followed by a stop character or the end is the capture at its position. */
  lemma HostBeforeStop(pre: string, host: string, rest: string)
    requires 0 < |host| && forall i :: 0 <= i < |host| ==> !IsStop(host[i])
    requires |rest| == 0 || IsStop(rest[0])
    ensures HostAt(pre + host + rest, |pre|, host)
  {
    var url := pre + host + rest;
    assert url[|pre|..|pre| + |host|] == host;
    assert |pre| + |host| < |url| ==> url[|pre| + |host|] == rest[0];
  }

  /** `www.` is dropped when a host character follows it. */
  lemma WwwThenHost(url: string, q: nat, host: string)
    requires WwwAt(url, q) && HostAt(url, q + 4, host)
    ensures HostAfter(url, q, host)
  {
    assert url[q + 4..q + 4 + |host|][0] == url[q + 4];
  }

  /** Without `www.`, a host whose first letter is not `w` is the capture right after the scheme. */
  lemma NoWwwThenHost(url: string, q: nat, host: string)
    requires HostAt(url, q, host) && LowerChar(host[0]) != 'w'
    ensures HostAfter(url, q, host)
  {
    assert url[q..q + |host|][0] == url[q];
    if q + 4 <= |url| {
      assert url[q..q + 4][0] == url[q];
    }
  }

  /**
   * A url that is a scheme, then `www.` or nothing, then a host, then a stop character or the end,
   * gives that host; when there is no `www.`, the host must not start with a `w`.
   */
  lemma SchemeThenHost(scheme: string, www: string, host: string, rest: string)
    requires SchemeAt(scheme, 0, |scheme|)
    requires www == "" || SameIgnoringCase(www, "www.")
    requires 0 < |host| && forall i :: 0 <= i < |host| ==> !IsStop(host[i])
    requires |rest| == 0 || IsStop(rest[0])
    requires www == "" ==> LowerChar(host[0]) != 'w'
    ensures GetHostnameFromUrl(scheme + www + host + rest) == Some(host)
  {
    var q := |scheme|;
    SchemePrefix(scheme, q, www);
    SchemePrefix(scheme + www, q, host);
    SchemePrefix(scheme + www + host, q, rest);
    HostBeforeStop(scheme + www, host, rest);
    var url := scheme + www + host + rest;
    if www == "" {
      NoWwwThenHost(url, q, host);
    } else {
      assert url[q..q + 4] == www;
      WwwThenHost(url, q, host);
    }
    FoundAt(url, 0, q, host);
  }

  /** A `www.` right after the scheme is dropped. */
  lemma WwwDropped()
    ensures GetHostnameFromUrl("https://" + "www." + "example.com" + "/a") == Some("example.com")
  {
    var scheme := "https://";
    assert scheme[0..5] == "https" && scheme[5..8] == "://";
    SchemeThenHost(scheme, "www.", "example.com", "/a");
  }

  /** The capture stops only at `/` or `?`, so a port stays in the host. */
  lemma PortKept()
    ensures GetHostnameFromUrl("http://" + "a.com:80" + "/x") == Some("a.com:80")
  {
    var scheme := "http://";
    assert scheme[0..4] == "http" && scheme[4..7] == "://";
    SchemeThenHost(scheme, "", "a.com:80", "/x");
    assert scheme + "" == scheme;
  }

  /** Scheme and `www.` match in any case; the host keeps its case. */
  lemma UpperCaseScheme()
    ensures GetHostnameFromUrl("HTTPS://" + "WWW." + "Example.COM" + "?q") == Some("Example.COM")
  {
    var scheme := "HTTPS://";
    assert scheme[0..5] == "HTTPS" && scheme[5..8] == "://";
    SchemeThenHost(scheme, "WWW.", "Example.COM", "?q");
  }

  /** When nothing but `/` or `?` follows `www.`, the optional group is given back and `www.` is the host. */
  lemma WwwGivenBack()
    ensures GetHostnameFromUrl("http://www./") == Some("www.")
  {
    var url := "http://www./";
    assert url[0..4] == "http" && url[4..7] == "://";
    assert SchemeAt(url, 0, 7);
    assert url[7..11] == "www.";
    assert HostAfter(url, 7, "www.");
    FoundAt(url, 0, 7, "www.");
  }

  /** No match starts before position 3 of the url LeftmostWins looks at. */
  lemma NoMatchBeforeThree(url: string)
    requires url == "go http://a?https://b"
    ensures forall j :: 0 <= j < 3 ==> MatchAt(url, j).None?
  {
    assert url[0] == 'g' && url[1] == 'o' && url[2] == ' ';
    forall j | 0 <= j < 3
      ensures MatchAt(url, j).None?
    {
      NotHttpAt(url, j);
    }
  }

  /** The match is unanchored: leading text is skipped and the first occurrence wins. */
  lemma LeftmostWins()
    ensures GetHostnameFromUrl("go http://a?https://b") == Some("a")
  {
    var url := "go http://a?https://b";
    NoMatchBeforeThree(url);
    assert url[3..7] == "http" && url[7..10] == "://";
    assert SchemeAt(url, 3, 10);
    assert url[10] == 'a' && url[11] == '?';
    assert HostAfter(url, 10, "a");
    FoundAt(url, 3, 10, "a");
  }

  /** No match starts before position 10 of the url EmptyHostSkipped looks at. */
  lemma NoMatchBeforeTen(url: string)
    requires url == "HTTP://?x http://c"
    ensures forall j :: 0 <= j < 10 ==> MatchAt(url, j).None?
  {
    assert url[0..4] == "HTTP" && url[4..7] == "://" && url[7] == '?';
    StopAfterScheme(url, 0, 7);
    assert url[1] == 'T' && url[2] == 'T' && url[3] == 'P' && url[4] == ':';
    assert url[5] == '/' && url[6] == '/' && url[8] == 'x' && url[9] == ' ';
    forall j | 1 <= j < 10
      ensures MatchAt(url, j).None?
    {
      NotHttpAt(url, j);
    }
  }

  /** A scheme followed directly by `/` or `?` does not match there; a later one can. */
  lemma EmptyHostSkipped()
    ensures GetHostnameFromUrl("HTTP://?x http://c") == Some("c")
  {
    var url := "HTTP://?x http://c";
    NoMatchBeforeTen(url);
    assert url[10..14] == "http" && url[14..17] == "://";
    assert SchemeAt(url, 10, 17);
    assert url[17..18] == "c";
    assert HostAfter(url, 17, "c");
    FoundAt(url, 10, 17, "c");
  }

  /** A url in which no match can start has no host. */
  lemma NoMatchNoHost(url: string)
    requires forall j :: 0 <= j && j + 7 <= |url| ==> MatchAt(url, j).None?
    ensures GetHostnameFromUrl(url) == None
  {
    forall j: nat | |url| < j + 7
      ensures MatchAt(url, j).None?
    {
      SchemeAtFacts(url, j);
    }
  }

  /** A string with no scheme in it has no host. */
  lemma NoScheme()
    ensures GetHostnameFromUrl("no scheme") == None
  {
    var url := "no scheme";
    assert url[0] == 'n' && url[1] == 'o' && url[2] == ' ';
    forall j | 0 <= j && j + 7 <= |url|
      ensures MatchAt(url, j).None?
    {
      NotHttpAt(url, j);
    }
    NoMatchNoHost(url);
  }

  /** The fixed parts of the favicon address that getThumbnailFromURL falls back to. */
  const FaviconPrefix: string := "https://www.google.com/s2/favicons?domain="
  const FaviconSuffix: string := "&sz=256"

  /** How a template literal renders a host: null becomes the text `null`. */
  function Rendered(host: Option<string>): string
  {
    if host.None? then "null" else host.value
  }

  /** The `domain` parameter of a favicon address: the text between the fixed prefix and suffix. */
  function DomainOf(address: string): string
  {
    if |FaviconPrefix| + |FaviconSuffix| <= |address| then address[|FaviconPrefix|..|address| - |FaviconSuffix|] else ""
  }

  /** The thumbnail used when the search request fails: the favicon address for the url's host. */
  function FaviconFallback(url: string): (r: string)
    ensures |FaviconPrefix| + |FaviconSuffix| <= |r|
    ensures r[..|FaviconPrefix|] == FaviconPrefix && r[|r| - |FaviconSuffix|..] == FaviconSuffix
    ensures DomainOf(r) == Rendered(GetHostnameFromUrl(url))
  {
    FaviconPrefix + Rendered(GetHostnameFromUrl(url)) + FaviconSuffix
  }

  /** A url without a host and a url whose host is `null` fall back to the same address. */
  lemma NullHostAmbiguous()
    ensures FaviconFallback("no scheme") == FaviconFallback("http://null")
  {
    NoScheme();
    NullHost();
  }

  /** The host `null` is an ordinary host. */
  lemma NullHost()
    ensures GetHostnameFromUrl("http://null") == Some("null")
  {
    var url := "http://null";
    assert url[0..4] == "http" && url[4..7] == "://";
    assert SchemeAt(url, 0, 7);
    assert url[7..11] == "null";
    assert HostAfter(url, 7, "null");
    FoundAt(url, 0, 7, "null");
  }
}
