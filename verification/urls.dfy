/** URLs as the request parser builds them from a request target (webcc/url.cc). */
module Urls {
  import opened Text

  datatype Url = Url(scheme: string, host: string, port: string, path: string, query: string)

  const EMPTY_URL := Url("", "", "", "", "")

  predicate SchemeAt(s: string, k: int) {
    0 <= k < |s| - 2 && s[k] == ':' && s[k + 1] == '/' && s[k + 2] == '/'
  }

  /** std::string::find("://"). */
  function FindScheme(s: string, off: nat := 0): (r: Option<nat>)
    requires off <= |s|
    ensures r.Some? ==> off <= r.value && SchemeAt(s, r.value) && forall k :: off <= k < r.value ==> !SchemeAt(s, k)
    ensures r.None? ==> forall k :: off <= k ==> !SchemeAt(s, k)
    decreases |s| - off
  {
    if off == |s| then None
    else if SchemeAt(s, off) then Some(off)
    else FindScheme(s, off + 1)
  }

  /** Url::Parse on a freshly constructed Url. */
  function ParseUrl(str: string): Url
  {
    var tmp := LTrim(str, BLANKS);
    match FindScheme(tmp)
    case None => WithPort(ParseLocation("", tmp))
    case Some(p) => WithPort(ParseLocation(tmp[..p], tmp[p + 3..]))
  }

  /** Everything after the scheme: host, path and query. */
  function ParseLocation(scheme: string, tmp: string): Url
  {
    match Find(tmp, '/')
    case Some(p) =>
      var target := tmp[p..];
      (match Find(target, '?')
       case Some(q) => Url(scheme, tmp[..p], "", target[..q], target[q + 1..])
       case None => Url(scheme, tmp[..p], "", target, ""))
    case None =>
      match Find(tmp, '?')
      case Some(q) => Url(scheme, tmp[..q], "", "", tmp[q + 1..])
      case None => Url(scheme, tmp, "", "", "")
  }

  function WithPort(u: Url): Url
  {
    match Find(u.host, ':')
    case Some(p) => u.(host := u.host[..p], port := u.host[p + 1..])
    case None => u
  }

  /** Url::Parse, step by step, on the fields of a newly constructed Url. */
  method Parse(str: string) returns (u: Url)
    ensures u == ParseUrl(str)
  {
    hide Find, FindScheme, LTrim, ParseLocation;
    u := EMPTY_URL;
    var tmp := LTrim(str, BLANKS);
    var p := FindScheme(tmp);
    if p.Some? {
      u := u.(scheme := tmp[..p.value]);
      tmp := tmp[p.value + 3..];
    }
    u := ParseRest(u, tmp);
    FindNone("", ':');
    if u.host != "" {
      p := Find(u.host, ':');
      if p.Some? {
        u := u.(port := u.host[p.value + 1..]);
        u := u.(host := u.host[..p.value]);
      }
    }
  }

  /** The part of Url::Parse between scheme and port. */
  method ParseRest(was: Url, str: string) returns (u: Url)
    requires was == EMPTY_URL.(scheme := was.scheme)
    ensures u == ParseLocation(was.scheme, str)
  {
    hide Find;
    u := was;
    var tmp := str;
    var p := Find(tmp, '/');
    if p.Some? {
      u := u.(host := tmp[..p.value]);
      tmp := tmp[p.value..];
      p := Find(tmp, '?');
      if p.Some? {
        u := u.(path := tmp[..p.value], query := tmp[p.value + 1..]);
      } else {
        u := u.(path := tmp);
      }
    } else {
      u := u.(path := "");
      p := Find(tmp, '?');
      if p.Some? {
        u := u.(host := tmp[..p.value], query := tmp[p.value + 1..]);
      } else {
        u := u.(host := tmp);
      }
    }
  }

  /** The request target Request::Prepare prints. */
  function Target(path: string, query: string): string {
    if query == "" then path else path + "?" + query
  }

  /** The target cannot be misread: no "://", a path without '?' that begins with '/', or no path and a query without
      '/', which would be taken for the start of one. */
  predicate Addressable(path: string, query: string) {
    && FindScheme(Target(path, query)).None? && '?' !in path
    && if path == "" then '/' !in query else path[0] == '/'
  }

  lemma ParseTargetSplits(path: string, query: string)
    requires path != "" && path[0] == '/' && '?' !in path
    ensures ParseLocation("", Target(path, query)) == Url("", "", "", path, query)
  {
    var t := Target(path, query);
    assert t[0] == '/';
    assert Find(t, '/') == Some(0);
    assert t[0..] == t && t[..0] == "";
    if query == "" {
      FindNone(t, '?');
    } else {
      assert t == path + ['?'] + query;
      FindAt(path, '?', query);
      assert t[..|path|] == path && t[|path| + 1..] == query;
    }
  }

  /** A target without a path is read back if no '/' occurs in its query. */
  lemma {:induction false} ParseQueryOnly(query: string)
    ensures ParseLocation("", Target("", query)) == Url("", "", "", "", query) <==> '/' !in query
  {
    hide Find;
    var t := Target("", query);
    if query == "" {
      FindNone(t, '/');
      FindNone(t, '?');
    } else {
      assert t == "" + ['?'] + query;
      FindAt("", '?', query);
      assert t[1..] == query && t[..0] == "";
      if '/' !in query {
        FindNone(t, '/');
      } else {
        assert '/' in t by {
          assert t[1..] == query;
        }
        FindFirst(t, '/');
      }
    }
  }

  lemma FindFirst(s: string, c: char)
    requires c in s
    ensures Find(s, c).Some?
  {
  }

  /** Whatever is found in a text is part of it, and the path begins with '/' and has no '?'. */
  lemma {:induction false} ParseLocationParts(scheme: string, tmp: string)
    ensures var u := ParseLocation(scheme, tmp); u.scheme == scheme && |u.host| + |u.path| + |u.query| <= |tmp|
    ensures var u := ParseLocation(scheme, tmp); '?' !in u.path && (u.path != "" ==> u.path[0] == '/')
    ensures var u, v := ParseLocation(scheme, tmp), WithPort(ParseLocation(scheme, tmp));
            v.scheme == scheme && v.path == u.path && v.query == u.query
    ensures var u := ParseLocation(scheme, tmp); forall c :: c !in tmp ==> c !in u.path && c !in u.query
  {
    hide Find;
  }

  /** What ParseUrl finds is part of the text. */
  lemma {:induction false} ParseUrlParts(str: string)
    ensures var u := ParseUrl(str); '?' !in u.path && (u.path != "" ==> u.path[0] == '/')
    ensures var u := ParseUrl(str); forall c :: c !in str ==> c !in u.path && c !in u.query
    ensures var u := ParseUrl(str); FindScheme(LTrim(str, BLANKS)).Some? ==> |u.path| + |u.query| + 3 <= |str|
    ensures FindScheme(LTrim(str, BLANKS)).None? ==> ParseUrl(str) == WithPort(ParseLocation("", LTrim(str, BLANKS)))
  {
    hide Find, LTrim, FindScheme, ParseLocation, WithPort;
    var tmp := LTrim(str, BLANKS);
    LTrimPart(str, BLANKS);
    match FindScheme(tmp)
    case None => ParseLocationParts("", tmp);
    case Some(p) =>
      ParseLocationParts(tmp[..p], tmp[p + 3..]);
      assert forall c :: c in tmp[p + 3..] ==> c in tmp;
  }

  lemma {:induction false} LTrimPart(s: string, chars: string)
    ensures |LTrim(s, chars)| <= |s| && forall c :: c in LTrim(s, chars) ==> c in s
  {
    if s != "" && s[0] in chars {
      LTrimPart(s[1..], chars);
    }
  }

  lemma TargetLength(path: string, query: string)
    ensures |path| + |query| <= |Target(path, query)| <= |path| + |query| + 1
  {
  }

  lemma NotTrimmed(t: string)
    requires t == "" || t[0] == '/' || t[0] == '?'
    ensures LTrim(t, BLANKS) == t
  {
  }

  /** A printed target is parsed back into its path and query exactly when it is addressable: otherwise what
      precedes "://" is taken for a scheme, the path is cut at a '?', or a host is found. */
  lemma {:induction false} TargetRoundTrip(path: string, query: string)
    ensures ParseUrl(Target(path, query)) == Url("", "", "", path, query) <==> Addressable(path, query)
  {
    var t := Target(path, query);
    ParseUrlParts(t);
    TargetLength(path, query);
    if '?' !in path && (path == "" || path[0] == '/') {
      assert t == "" || t[0] == '/' || t[0] == '?';
      NotTrimmed(t);
      TargetLocation(path, query);
    }
  }

  lemma {:induction false} TargetLocation(path: string, query: string)
    requires '?' !in path && (path == "" || path[0] == '/')
    ensures WithPort(ParseLocation("", Target(path, query))) == Url("", "", "", path, query)
            <==> (path == "" ==> '/' !in query)
  {
    hide ParseLocation, Find;
    ParseLocationParts("", Target(path, query));
    FindNone("", ':');
    if path == "" {
      ParseQueryOnly(query);
      if '/' in query {
        QueryHost(query);
      }
    } else {
      ParseTargetSplits(path, query);
    }
  }

  /** A '/' in the query starts a path. */
  lemma {:induction false} QueryHost(query: string)
    requires '/' in query
    ensures ParseLocation("", Target("", query)).path != ""
  {
    hide Find;
    var t := Target("", query);
    assert t[1..] == query;
    FindFirst(t, '/');
  }

  // ---------------------------------------------------------------- whole URLs

  function PortText(port: string): string {
    if port == "" then "" else ":" + port
  }

  /** What follows the scheme in a printed URL. */
  function Location(host: string, port: string, path: string, query: string): string {
    host + PortText(port) + Target(path, query)
  }

  /** Host, port, path and query can be told apart again. */
  predicate Separable(host: string, port: string, path: string, query: string) {
    && ':' !in host && '/' !in host && '/' !in port
    && if path == "" then '/' !in query && '?' !in host && '?' !in port else path[0] == '/' && '?' !in path
  }

  lemma {:induction false} PortSplits(u: Url, host: string, port: string)
    requires ':' !in host && u.host == host + PortText(port) && u.port == ""
    ensures WithPort(u) == u.(host := host, port := port)
  {
    hide Find;
    if port == "" {
      assert u.host == host;
      FindNone(host, ':');
    } else {
      assert u.host == host + [':'] + port;
      FindAt(host, ':', port);
      assert u.host[..|host|] == host && u.host[|host| + 1..] == port;
    }
  }

  lemma {:induction false} LocationSplits(scheme: string, front: string, path: string, query: string)
    requires '/' !in front
    requires if path == "" then '/' !in query && '?' !in front else path[0] == '/' && '?' !in path
    ensures ParseLocation(scheme, front + Target(path, query)) == Url(scheme, front, "", path, query)
  {
    hide Find;
    var target := Target(path, query);
    var tmp := front + target;
    if path == "" {
      FindNone(tmp, '/');
      if query == "" {
        assert tmp == front;
        FindNone(tmp, '?');
      } else {
        assert tmp == front + ['?'] + query;
        FindAt(front, '?', query);
        assert tmp[..|front|] == front && tmp[|front| + 1..] == query;
      }
    } else {
      assert target[0] == '/';
      assert tmp == front + ['/'] + target[1..];
      FindAt(front, '/', target[1..]);
      assert tmp[..|front|] == front && tmp[|front|..] == target;
      TargetCut(path, query);
    }
  }

  lemma {:induction false} TargetCut(path: string, query: string)
    requires '?' !in path
    ensures Find(Target(path, query), '?') == if query == "" then None else Some(|path|)
    ensures query != "" ==> Target(path, query)[..|path|] == path && Target(path, query)[|path| + 1..] == query
  {
    hide Find;
    if query == "" {
      FindNone(path, '?');
    } else {
      assert Target(path, query) == path + ['?'] + query;
      FindAt(path, '?', query);
    }
  }

  /** Whatever is found in a text can be told apart, and is not longer than the text when it is printed. */
  lemma {:induction false} LocationFacts(scheme: string, tmp: string)
    ensures var u := WithPort(ParseLocation(scheme, tmp));
            && u.scheme == scheme && Separable(u.host, u.port, u.path, u.query)
            && |Location(u.host, u.port, u.path, u.query)| <= |tmp|
  {
    hide Find;
    var u := ParseLocation(scheme, tmp);
    assert '/' !in u.host && |u.host| + |Target(u.path, u.query)| <= |tmp|;
    match Find(u.host, ':')
    case None =>
    case Some(p) => assert forall c :: c in u.host[..p] || c in u.host[p + 1..] ==> c in u.host;
  }

  lemma {:induction false} LocationRoundTrip(scheme: string, host: string, port: string, path: string, query: string)
    ensures WithPort(ParseLocation(scheme, Location(host, port, path, query))) == Url(scheme, host, port, path, query)
            <==> Separable(host, port, path, query)
  {
    hide ParseLocation, WithPort;
    LocationFacts(scheme, Location(host, port, path, query));
    if Separable(host, port, path, query) {
      LocationSplits(scheme, host + PortText(port), path, query);
      PortSplits(Url(scheme, host + PortText(port), "", path, query), host, port);
    }
  }

  /** Where the scheme of a printed URL ends. */
  lemma {:induction false} SchemeFound(scheme: string, rest: string)
    ensures var r := FindScheme(scheme + "://" + rest);
            r.Some? && r.value <= |scheme| && (r.value == |scheme| <==> FindScheme(scheme).None?)
  {
    hide FindScheme;
    var s := scheme + "://" + rest;
    assert SchemeAt(s, |scheme|);
    forall k | 0 <= k < |scheme| ensures SchemeAt(s, k) == SchemeAt(scheme, k) {
      if k + 2 >= |scheme| {
        assert s[|scheme|] == ':';
      }
    }
  }

  /** The scheme has no "://" in it and does not begin with a blank. */
  predicate SchemeClear(scheme: string) {
    FindScheme(scheme).None? && (scheme == "" || (scheme[0] != ' ' && scheme[0] != '\t'))
  }

  lemma SchemeCut(scheme: string, rest: string)
    ensures (scheme + "://" + rest)[..|scheme|] == scheme && (scheme + "://" + rest)[|scheme| + 3..] == rest
  {
  }

  /** A printed URL is parsed back into its parts if and only if they can be told apart. */
  lemma {:induction false} UrlRoundTrip(scheme: string, host: string, port: string, path: string, query: string)
    ensures ParseUrl(scheme + "://" + Location(host, port, path, query)) == Url(scheme, host, port, path, query)
            <==> SchemeClear(scheme) && Separable(host, port, path, query)
  {
    hide ParseLocation, WithPort, FindScheme, LTrim, Location, Separable;
    var rest := Location(host, port, path, query);
    var str := scheme + "://" + rest;
    var lead := LTrim(scheme, BLANKS);
    assert str == scheme + ("://" + rest);
    LTrimInFront(scheme, "://" + rest, BLANKS);
    assert lead + ("://" + rest) == lead + "://" + rest;
    SchemeFound(lead, rest);
    SchemeCut(lead, rest);
    LeadingBlanks(scheme);
    var p := FindScheme(lead + "://" + rest).value;
    LocationFacts((lead + "://" + rest)[..p], (lead + "://" + rest)[p + 3..]);
    LocationRoundTrip(scheme, host, port, path, query);
  }

  lemma LeadingBlanks(s: string)
    ensures LTrim(s, BLANKS) == s <==> s == "" || (s[0] != ' ' && s[0] != '\t')
    ensures |LTrim(s, BLANKS)| <= |s| && (|LTrim(s, BLANKS)| == |s| ==> LTrim(s, BLANKS) == s)
  {
    LTrimPart(s, BLANKS);
    if s != "" && s[0] in BLANKS {
      LTrimPart(s[1..], BLANKS);
    }
  }

  /** The same without a scheme. */
  lemma {:induction false} LocalUrlRoundTrip(host: string, port: string, path: string, query: string)
    ensures var str := Location(host, port, path, query);
            ParseUrl(str) == Url("", host, port, path, query)
            <==> && FindScheme(str).None? && (str == "" || (str[0] != ' ' && str[0] != '\t'))
                 && Separable(host, port, path, query)
  {
    hide ParseLocation, WithPort, FindScheme, LTrim, Location, Separable;
    var str := Location(host, port, path, query);
    LeadingBlanks(str);
    var tmp := LTrim(str, BLANKS);
    LocationRoundTrip("", host, port, path, query);
    match FindScheme(tmp)
    case None => LocationFacts("", tmp);
    case Some(p) => LocationFacts(tmp[..p], tmp[p + 3..]);
  }
}
