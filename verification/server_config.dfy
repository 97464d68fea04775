/** `ServerConfig`: protocol, host, optional port and path of a server, and the base URL built from
    them, whose path always starts and ends with a slash. */
module Config {
  import opened Results
  import Decimal

  /** A port of -1 means none was given, as `java.net.URL` has it. */
  datatype ServerConfig = ServerConfig(protocol: string, host: string, port: int, path: string)

  predicate IsSlashed(p: string) {
    |p| > 0 && p[0] == '/' && p[|p| - 1] == '/'
  }

  /** The path with a slash put in front and at the end where there is none; an empty path is the
      root `/`. */
  function NormalizePath(p: string): (r: string)
    ensures IsSlashed(r)
    ensures |p| > 0 && p[0] == '/' ==> |r| >= |p| && r[..|p|] == p
    ensures (|p| == 0 || p[0] != '/') ==> |r| >= |p| + 1 && r[1..|p| + 1] == p
    ensures |r| <= |p| + 2
    ensures IsSlashed(p) ==> r == p
  {
    var lead := if |p| > 0 && p[0] == '/' then p else "/" + p;
    if lead[|lead| - 1] == '/' then lead else lead + "/"
  }

  /** Normalising twice is normalising once. */
  lemma NormalizeIdempotent(p: string)
    ensures NormalizePath(NormalizePath(p)) == NormalizePath(p)
  {
  }

  /** `/schema/` and `/schema` (and `schema`) name the same base path. */
  lemma NormalizeIgnoresSlashes(p: string)
    ensures (|p| == 0 || p[|p| - 1] != '/') ==> NormalizePath(p + "/") == NormalizePath(p)
    ensures (|p| == 0 || p[0] != '/') ==> NormalizePath("/" + p) == NormalizePath(p)
  {
    if |p| == 0 || p[|p| - 1] != '/' {
      if |p| > 0 && p[0] == '/' {
        assert (p + "/")[..|p|] == p;
      } else {
        assert ("/" + (p + "/")) == ("/" + p) + "/";
      }
    }
  }

  /** `host[:port]`. */
  function Authority(c: ServerConfig): (r: string)
    ensures c.port == -1 ==> r == c.host
    ensures c.port >= 0 ==> |r| > |c.host| + 1 && r[..|c.host|] == c.host && r[|c.host|] == ':'
  {
    if c.port < 0 then c.host else c.host + ":" + Decimal.IntToString(c.port)
  }

  /** `getUrlString` and `toString`: `protocol://authority/path/`. */
  function UrlString(c: ServerConfig): (r: string)
    ensures |r| > |c.protocol| + 3 && r[..|c.protocol|] == c.protocol
    ensures r[|c.protocol|..|c.protocol| + 3] == "://"
    ensures r[|r| - 1] == '/'
  {
    c.protocol + "://" + Authority(c) + NormalizePath(c.path)
  }

  /** `URL.getDefaultPort`: the well-known port of the protocol, -1 for an unknown one. */
  function DefaultPort(protocol: string): (port: int)
    ensures port == -1 || port > 0
    ensures protocol == "http" ==> port == 80
    ensures protocol == "https" ==> port == 443
    ensures protocol != "http" && protocol != "https" ==> port == -1
  {
    if protocol == "http" then 80 else if protocol == "https" then 443 else -1
  }

  /** Index of the first character of `s` in `stops`, or `|s|` when there is none. */
  function IndexOfAny(s: string, stops: set<char>): (k: nat)
    ensures k <= |s|
    ensures forall i :: 0 <= i < k ==> s[i] !in stops
    ensures k < |s| ==> s[k] in stops
  {
    if |s| == 0 then 0
    else if s[0] in stops then 0
    else 1 + IndexOfAny(s[1..], stops)
  }

  /** A protocol or host: non-empty and free of the characters that end it in a URL. */
  predicate IsName(s: string) {
    |s| > 0 && forall i :: 0 <= i < |s| ==> s[i] != ':' && s[i] != '/'
  }

  const NameStops: set<char> := {':', '/'}

  /** The parts of a URL `protocol://host[:port][/path]`; the path is kept as written. */
  function ParseUrl(s: string): (r: Option<ServerConfig>)
    ensures r.Some? ==> IsName(r.value.protocol) && IsName(r.value.host) && r.value.port >= -1
  {
    var k := IndexOfAny(s, NameStops);
    if k == 0 || k + 3 > |s| || s[k..k + 3] != "://" then None
    else ParseAuthority(s[..k], s[k + 3..])
  }

  /** What follows `protocol://`: the host, an optional `:port`, then the path. A colon with no
      digits after it means no port, as `java.net.URL` reads it. */
  function ParseAuthority(protocol: string, rest: string): (r: Option<ServerConfig>)
    requires IsName(protocol)
    ensures r.Some? ==> r.value.protocol == protocol && IsName(r.value.host) && r.value.port >= -1
  {
    var h := IndexOfAny(rest, NameStops);
    if h == 0 then None
    else if h < |rest| && rest[h] == ':' then
      var tail := rest[h + 1..];
      var q := IndexOfAny(tail, {'/'});
      if q == 0 then Some(ServerConfig(protocol, rest[..h], -1, tail))
      else match Decimal.ParseNat(tail[..q])
      case Some(port) => Some(ServerConfig(protocol, rest[..h], port, tail[q..]))
      case None => None
    else Some(ServerConfig(protocol, rest[..h], -1, rest[h..]))
  }

  /** A configuration that can be written as a URL and read back. */
  predicate Valid(c: ServerConfig) {
    IsName(c.protocol) && IsName(c.host) && c.port >= -1
  }

  lemma IndexOfAnyPrefix(a: string, b: string, stops: set<char>)
    requires forall i :: 0 <= i < |a| ==> a[i] !in stops
    requires |b| > 0 && b[0] in stops
    ensures IndexOfAny(a + b, stops) == |a|
    decreases |a|
  {
    if |a| > 0 {
      assert (a + b)[1..] == a[1..] + b;
      IndexOfAnyPrefix(a[1..], b, stops);
    }
  }

  /** A name followed by a stop character (or nothing) is read up to that character. */
  lemma NameSplit(name: string, after: string)
    requires IsName(name)
    requires |after| > 0 ==> after[0] in NameStops
    ensures IndexOfAny(name + after, NameStops) == |name|
    ensures (name + after)[..|name|] == name && (name + after)[|name|..] == after
  {
    if |after| > 0 {
      IndexOfAnyPrefix(name, after, NameStops);
    } else {
      assert name + after == name;
      NoStopIndex(name, NameStops);
    }
  }

  lemma NoStopIndex(s: string, stops: set<char>)
    requires forall i :: 0 <= i < |s| ==> s[i] !in stops
    ensures IndexOfAny(s, stops) == |s|
    decreases |s|
  {
    if |s| > 0 {
      NoStopIndex(s[1..], stops);
    }
  }

  lemma ParseUrlScheme(protocol: string, rest: string)
    requires IsName(protocol)
    ensures ParseUrl(protocol + "://" + rest) == ParseAuthority(protocol, rest)
  {
    var s := protocol + "://" + rest;
    assert s == protocol + ("://" + rest);
    NameSplit(protocol, "://" + rest);
    var k := |protocol|;
    assert s[k..k + 3] == "://";
    assert s[k + 3..] == rest;
  }

  lemma ParseAuthorityNoPort(protocol: string, host: string, path: string)
    requires IsName(protocol) && IsName(host)
    requires |path| > 0 ==> path[0] == '/'
    ensures ParseAuthority(protocol, host + path) == Some(ServerConfig(protocol, host, -1, path))
  {
    NameSplit(host, path);
  }

  /** What follows `host:` is a port up to the first slash (none when there are no digits), then
      the path. */
  lemma ParseAuthorityColon(protocol: string, host: string, tail: string)
    requires IsName(protocol) && IsName(host)
    ensures var q := IndexOfAny(tail, {'/'});
      ParseAuthority(protocol, host + (":" + tail)) ==
        if q == 0 then Some(ServerConfig(protocol, host, -1, tail))
        else match Decimal.ParseNat(tail[..q])
          case Some(port) => Some(ServerConfig(protocol, host, port, tail[q..]))
          case None => None
  {
    var rest := host + (":" + tail);
    NameSplit(host, ":" + tail);
    assert rest[|host| + 1..] == tail;
  }

  lemma ParseAuthorityPort(protocol: string, host: string, port: nat, path: string)
    requires IsName(protocol) && IsName(host) && IsSlashed(path)
    ensures ParseAuthority(protocol, host + ":" + Decimal.IntToString(port) + path)
         == Some(ServerConfig(protocol, host, port, path))
  {
    var tail := Decimal.IntToString(port) + path;
    assert host + ":" + Decimal.IntToString(port) + path == host + (":" + tail);
    ParseAuthorityColon(protocol, host, tail);
    ParsePort(port, path);
  }

  /** `host:` followed by the path, with no digits: the URL has no port. */
  lemma ParseAuthorityEmptyPort(protocol: string, host: string, path: string)
    requires IsName(protocol) && IsName(host)
    requires |path| > 0 ==> path[0] == '/'
    ensures ParseAuthority(protocol, host + ":" + path) == Some(ServerConfig(protocol, host, -1, path))
  {
    assert host + ":" + path == host + (":" + path);
    ParseAuthorityColon(protocol, host, path);
    if |path| > 0 {
      IndexOfAnyPrefix([], path, {'/'});
      assert [] + path == path;
    }
  }

  lemma ParsePort(port: nat, path: string)
    requires IsSlashed(path)
    ensures var tail := Decimal.IntToString(port) + path;
      IndexOfAny(tail, {'/'}) == |Decimal.IntToString(port)| &&
      Decimal.ParseNat(tail[..IndexOfAny(tail, {'/'})]) == Some(port) &&
      tail[IndexOfAny(tail, {'/'})..] == path
  {
    var digits := Decimal.NatToString(port);
    var tail := digits + path;
    assert Decimal.IntToString(port) == digits;
    forall i | 0 <= i < |digits| ensures digits[i] !in {'/'} {
      assert Decimal.IsDigit(digits[i]);
    }
    IndexOfAnyPrefix(digits, path, {'/'});
    assert tail[..|digits|] == digits;
    Decimal.ParseNatToString(port);
  }

  /** Reading back the URL string gives the configuration, with its path normalised. */
  lemma ParseUrlString(c: ServerConfig)
    requires Valid(c)
    ensures ParseUrl(UrlString(c)) == Some(c.(path := NormalizePath(c.path)))
  {
    var path := NormalizePath(c.path);
    ParseUrlScheme(c.protocol, Authority(c) + path);
    assert UrlString(c) == c.protocol + "://" + (Authority(c) + path);
    if c.port < 0 {
      ParseAuthorityNoPort(c.protocol, c.host, path);
    } else {
      ParseAuthorityPort(c.protocol, c.host, c.port, path);
      assert Authority(c) + path == c.host + ":" + Decimal.IntToString(c.port) + path;
    }
  }

  lemma SomethingElseNames()
    ensures IsName("http") && IsName("something.else")
    ensures "http://something.else/that" == "http" + "://" + ("something.else" + "/that")
  {
  }

  /** ServerConfigTest.getUrl: `http://something.else/that` has protocol `http`, host
      `something.else`, no port and path `/that`. */
  lemma SomethingElseParse()
    ensures ParseUrl("http://something.else/that") == Some(ServerConfig("http", "something.else", -1, "/that"))
  {
    SomethingElseNames();
    ParseUrlScheme("http", "something.else" + "/that");
    ParseAuthorityNoPort("http", "something.else", "/that");
  }

  lemma SomethingElseLiteral()
    ensures "http" + "://" + "something.else" + "/that/" == "http://something.else/that/"
  {
  }

  /** ServerConfigTest.getUrl: the base URL gains a trailing slash; http's default port is 80. */
  lemma SomethingElseUrl()
    ensures UrlString(ServerConfig("http", "something.else", -1, "/that")) == "http://something.else/that/"
    ensures DefaultPort("http") == 80
  {
    assert NormalizePath("/that") == "/that/";
    SomethingElseLiteral();
  }

  lemma SchemaUrlLiteral()
    ensures "http" + "://" + "52.210.59.174" + "/schema/" == "http://52.210.59.174/schema/"
  {
  }

  /** ServerConfigTest.jacksonUrl: the paths `/schema/` and `/schema` give the same base URL. */
  lemma SchemaPathExample()
    ensures UrlString(ServerConfig("http", "52.210.59.174", -1, "/schema/")) == "http://52.210.59.174/schema/"
    ensures UrlString(ServerConfig("http", "52.210.59.174", -1, "/schema")) == "http://52.210.59.174/schema/"
  {
    assert NormalizePath("/schema/") == "/schema/";
    NormalizeIgnoresSlashes("/schema");
    assert "/schema" + "/" == "/schema/";
    SchemaUrlLiteral();
  }
}
