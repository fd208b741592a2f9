/**
 * `domainPattern` of `validateRSSURL`,
 * `/^(https?:\/\/)?([\w-]+\.)+[\w-]+(\/[\w- ./?%&=]*)?$/`, as a matcher
 * written out by hand, and the same language described by its parts
 * (`Compose`), with a proof that the two agree in both directions.
 */
module UrlPattern {
  import opened Wrappers
  import opened Text

  /** `[\w-]`. */
  predicate IsLabelChar(c: char) { IsWordChar(c) || c == '-' }

  /** `[\w- ./?%&=]`: the `-` after `\w` is a literal hyphen. */
  predicate IsPathChar(c: char) {
    IsLabelChar(c) || c == ' ' || c == '.' || c == '/' || c == '?' || c == '%' || c == '&' || c == '='
  }

  /** `[\w-]+`. */
  predicate IsLabel(l: string) {
    l != [] && forall i :: 0 <= i < |l| ==> IsLabelChar(l[i])
  }

  /** The characters a path may hold after the host. */
  predicate IsPath(p: string) {
    forall i :: 0 <= i < |p| ==> IsPathChar(p[i])
  }

  /** What `(https?:\/\/)?` matches at the start of `u`. */
  function SchemeOf(u: string): (scheme: string)
    ensures scheme <= u
    ensures scheme == "" || scheme == "http://" || scheme == "https://"
  {
    if "https://" <= u then "https://" else if "http://" <= u then "http://" else ""
  }

  /** `u` with the optional `https?://` removed. */
  function AfterScheme(u: string): (s: string)
    ensures u == SchemeOf(u) + s
  {
    u[|SchemeOf(u)|..]
  }

  /** The length of the run of label characters `s` starts with. */
  function LabelLength(s: string): (n: nat)
    ensures n <= |s|
    ensures forall i :: 0 <= i < n ==> IsLabelChar(s[i])
    ensures n == |s| || !IsLabelChar(s[n])
  {
    if s != [] && IsLabelChar(s[0]) then 1 + LabelLength(s[1..]) else 0
  }

  /** The index of the first `/` in `s`, or `|s|`. */
  function SlashIndex(s: string): (n: nat)
    ensures n <= |s|
    ensures forall i :: 0 <= i < n ==> s[i] != '/'
    ensures n == |s| || s[n] == '/'
  {
    if s != [] && s[0] != '/' then 1 + SlashIndex(s[1..]) else 0
  }

  /** `([\w-]+\.)+[\w-]+`: a label and a dot, then a label or another host. */
  predicate IsHost(h: string)
    decreases |h|
  {
    var n := LabelLength(h);
    0 < n < |h| && h[n] == '.' && (IsLabel(h[n + 1..]) || IsHost(h[n + 1..]))
  }

  /** `domainPattern.test(u)`. The host cannot hold `/`, so it ends at the first `/`. */
  predicate MatchesDomainPattern(u: string) {
    HostThenPath(AfterScheme(u))
  }

  /** `([\w-]+\.)+[\w-]+(\/[\w- ./?%&=]*)?`, the pattern after its scheme. */
  predicate HostThenPath(s: string) {
    var n := SlashIndex(s);
    IsHost(s[..n]) && IsPath(s[n..])
  }

  // ------------------------------------------------ the pattern by its parts

  /** Labels joined by dots. */
  function Join(labels: seq<string>): string
    requires |labels| >= 1
  {
    if |labels| == 1 then labels[0] else labels[0] + "." + Join(labels[1..])
  }

  /** An optional scheme, at least two labels, and an optional path after a `/`. */
  predicate ValidParts(scheme: string, labels: seq<string>, path: Option<string>) {
    && (scheme == "" || scheme == "http://" || scheme == "https://")
    && |labels| >= 2
    && (forall i :: 0 <= i < |labels| ==> IsLabel(labels[i]))
    && (path.Some? ==> IsPath(path.value))
  }

  /** A scheme, then the labels joined by dots, then `/` and the path if there is one. */
  function Compose(scheme: string, labels: seq<string>, path: Option<string>): string
    requires |labels| >= 1
  {
    scheme + (Join(labels) + PathPart(path))
  }

  function PathPart(path: Option<string>): string {
    if path.Some? then "/" + path.value else ""
  }

  /** The characters of joined labels. */
  lemma {:induction false} JoinChars(labels: seq<string>)
    requires |labels| >= 1
    requires forall i :: 0 <= i < |labels| ==> IsLabel(labels[i])
    ensures forall i :: 0 <= i < |Join(labels)| ==> IsLabelChar(Join(labels)[i]) || Join(labels)[i] == '.'
  {
    if |labels| > 1 {
      JoinChars(labels[1..]);
      var a, rest := labels[0], Join(labels[1..]);
      assert Join(labels) == a + "." + rest;
      forall i | 0 <= i < |Join(labels)|
        ensures IsLabelChar(Join(labels)[i]) || Join(labels)[i] == '.'
      {
        if i < |a| {
          assert Join(labels)[i] == a[i];
        } else if i > |a| {
          assert Join(labels)[i] == rest[i - |a| - 1];
        }
      }
    }
  }

  lemma LabelLengthDot(a: string, rest: string)
    requires IsLabel(a)
    ensures LabelLength(a + "." + rest) == |a|
    decreases |a|
  {
    if |a| > 1 {
      assert (a + "." + rest)[1..] == a[1..] + "." + rest;
      LabelLengthDot(a[1..], rest);
    } else {
      assert (a + "." + rest)[1..] == "." + rest;
    }
  }

  lemma {:induction false} JoinIsHost(labels: seq<string>)
    requires |labels| >= 2
    requires forall i :: 0 <= i < |labels| ==> IsLabel(labels[i])
    ensures IsHost(Join(labels))
  {
    var a, rest := labels[0], Join(labels[1..]);
    var h := a + "." + rest;
    assert Join(labels) == h;
    LabelLengthDot(a, rest);
    assert h[|a|] == '.';
    assert h[|a| + 1..] == rest;
    if |labels| == 2 {
      assert rest == labels[1];
    } else {
      JoinIsHost(labels[1..]);
    }
  }

  /** The part after the scheme, of a string built from valid parts, is path characters only. */
  lemma TailChars(labels: seq<string>, path: Option<string>)
    requires |labels| >= 1
    requires forall i :: 0 <= i < |labels| ==> IsLabel(labels[i])
    requires path.Some? ==> IsPath(path.value)
    ensures IsPath(Join(labels) + PathPart(path))
  {
    JoinChars(labels);
    var host := Join(labels);
    var tail := PathPart(path);
    var s := host + tail;
    forall i | 0 <= i < |s| ensures IsPathChar(s[i]) {
      if i < |host| {
        assert s[i] == host[i];
      } else {
        assert s[i] == tail[i - |host|];
        if i > |host| {
          assert tail[i - |host|] == path.value[i - |host| - 1];
        }
      }
    }
  }

  /** Path characters hold no `:`, so no scheme can be read into them. */
  lemma AfterSchemePlain(s: string)
    requires IsPath(s)
    ensures AfterScheme(s) == s
  {
    if |s| > 5 {
      assert IsPathChar(s[4]) && IsPathChar(s[5]);
    }
  }

  /** A host followed by nothing or by a `/` and path characters. */
  lemma HostThenPathJoin(labels: seq<string>, path: Option<string>)
    requires |labels| >= 2
    requires forall i :: 0 <= i < |labels| ==> IsLabel(labels[i])
    requires path.Some? ==> IsPath(path.value)
    ensures HostThenPath(Join(labels) + PathPart(path))
  {
    var host, tail := Join(labels), PathPart(path);
    JoinIsHost(labels);
    JoinNoSlash(labels);
    PathPartChars(path);
    SlashIndexConcat(host, tail);
    HostThenPathSplit(host, tail);
  }

  lemma HostThenPathSplit(host: string, tail: string)
    requires SlashIndex(host + tail) == |host|
    requires IsHost(host) && IsPath(tail)
    ensures HostThenPath(host + tail)
  {
    var s := host + tail;
    assert s[..|host|] == host;
    assert s[|host|..] == tail;
  }

  lemma JoinNoSlash(labels: seq<string>)
    requires |labels| >= 1
    requires forall i :: 0 <= i < |labels| ==> IsLabel(labels[i])
    ensures forall i :: 0 <= i < |Join(labels)| ==> Join(labels)[i] != '/'
  {
    JoinChars(labels);
  }

  /** A `/`-free text followed by nothing or by a `/`: the first `/` is where the text ends. */
  lemma SlashIndexConcat(host: string, tail: string)
    requires forall i :: 0 <= i < |host| ==> host[i] != '/'
    requires tail == [] || tail[0] == '/'
    ensures SlashIndex(host + tail) == |host|
  {
    var s := host + tail;
    forall i | 0 <= i < |host| ensures s[i] != '/' {
      assert s[i] == host[i];
    }
    if tail != [] {
      assert s[|host|] == tail[0];
    }
    SlashIndexAt(s, |host|);
  }

  lemma PathPartChars(path: Option<string>)
    requires path.Some? ==> IsPath(path.value)
    ensures IsPath(PathPart(path))
    ensures PathPart(path) == [] || PathPart(path)[0] == '/'
  {
    if path.Some? {
      var t := PathPart(path);
      forall i | 0 <= i < |t| ensures IsPathChar(t[i]) {
        if i > 0 {
          assert t[i] == path.value[i - 1];
        }
      }
    }
  }

  /** Every string built from valid parts matches `domainPattern`. */
  lemma ComposeMatches(scheme: string, labels: seq<string>, path: Option<string>)
    requires ValidParts(scheme, labels, path)
    ensures MatchesDomainPattern(Compose(scheme, labels, path))
  {
    var s := Join(labels) + PathPart(path);
    var u := Compose(scheme, labels, path);
    HostThenPathJoin(labels, path);
    if scheme == "" {
      TailChars(labels, path);
      AfterSchemePlain(s);
    } else if scheme == "http://" {
      SchemeHttp(u, s);
    } else {
      SchemeHttps(u);
    }
    AfterSchemeOf(u, scheme, s);
  }

  lemma SchemeHttps(u: string)
    requires "https://" <= u
    ensures SchemeOf(u) == "https://"
  {
  }

  lemma SchemeHttp(u: string, s: string)
    requires u == "http://" + s
    ensures SchemeOf(u) == "http://"
  {
    assert u[4] == ':';
    assert u[..7] == "http://";
  }

  lemma AfterSchemeOf(u: string, scheme: string, s: string)
    requires u == scheme + s && SchemeOf(u) == scheme
    ensures AfterScheme(u) == s
  {
    assert u[|scheme|..] == s;
  }

  lemma SlashIndexAt(s: string, n: nat)
    requires n <= |s|
    requires forall i :: 0 <= i < n ==> s[i] != '/'
    requires n == |s| || s[n] == '/'
    ensures SlashIndex(s) == n
  {
    if n > 0 {
      SlashIndexAt(s[1..], n - 1);
    }
  }

  lemma LabelLengthAt(s: string, n: nat)
    requires n <= |s|
    requires forall i :: 0 <= i < n ==> IsLabelChar(s[i])
    requires n == |s| || !IsLabelChar(s[n])
    ensures LabelLength(s) == n
  {
    if n > 0 {
      LabelLengthAt(s[1..], n - 1);
    }
  }

  /** The labels of a host, split at its dots. */
  function Labels(h: string): (labels: seq<string>)
    requires IsHost(h)
    ensures |labels| >= 2 && Join(labels) == h
    ensures forall i :: 0 <= i < |labels| ==> IsLabel(labels[i])
    decreases |h|
  {
    var n := LabelLength(h);
    var first := h[..n];
    assert IsLabel(first);
    assert h == first + "." + h[n + 1..];
    if IsLabel(h[n + 1..]) then
      [first, h[n + 1..]]
    else
      var rest := Labels(h[n + 1..]);
      assert ([first] + rest)[1..] == rest;
      [first] + rest
  }

  /** The labels and path of a host followed by an optional path. */
  lemma HostThenPathParts(s: string) returns (labels: seq<string>, path: Option<string>)
    requires HostThenPath(s)
    ensures |labels| >= 2 && (forall i :: 0 <= i < |labels| ==> IsLabel(labels[i]))
    ensures path.Some? ==> IsPath(path.value)
    ensures s == Join(labels) + PathPart(path)
  {
    var n := SlashIndex(s);
    var host, tail := s[..n], s[n..];
    labels := Labels(host);
    path := PathOfTail(tail);
    assert s == host + tail;
  }

  /** The path of a tail that is empty or a `/` followed by path characters. */
  lemma PathOfTail(tail: string) returns (path: Option<string>)
    requires IsPath(tail) && (tail == [] || tail[0] == '/')
    ensures path.Some? ==> IsPath(path.value)
    ensures PathPart(path) == tail
  {
    if tail == [] {
      path := None;
    } else {
      path := Some(tail[1..]);
      forall i | 0 <= i < |tail| - 1 ensures IsPathChar(tail[1..][i]) {
        assert tail[1..][i] == tail[i + 1];
      }
      assert tail == [tail[0]] + tail[1..];
    }
  }

  /** Every string that matches `domainPattern` is built from valid parts. */
  lemma MatchesIsComposed(u: string)
    requires MatchesDomainPattern(u)
    ensures exists scheme, labels, path :: ValidParts(scheme, labels, path) && Compose(scheme, labels, path) == u
  {
    var scheme := SchemeOf(u);
    var labels, path := HostThenPathParts(AfterScheme(u));
    assert ValidParts(scheme, labels, path);
    assert Compose(scheme, labels, path) == u;
  }

  /** The characters of a host. */
  lemma HostChars(h: string)
    requires IsHost(h)
    ensures IsPath(h)
    decreases |h|
  {
    var n := LabelLength(h);
    var rest := h[n + 1..];
    if !IsLabel(rest) {
      HostChars(rest);
    }
    forall i | 0 <= i < |h| ensures IsPathChar(h[i]) {
      if i > n {
        assert h[i] == rest[i - n - 1];
      }
    }
  }

  /** Every character of `s` is ASCII. */
  predicate AllAscii(s: string) {
    forall i :: 0 <= i < |s| ==> IsAscii(s[i])
  }

  lemma AllAsciiConcat(a: string, b: string)
    requires AllAscii(a) && AllAscii(b)
    ensures AllAscii(a + b)
  {
    forall i | 0 <= i < |a + b| ensures IsAscii((a + b)[i]) {
      if i >= |a| {
        assert (a + b)[i] == b[i - |a|];
      }
    }
  }

  lemma PathAscii(p: string)
    requires IsPath(p)
    ensures AllAscii(p)
  {
    forall i | 0 <= i < |p| ensures IsAscii(p[i]) {
      PathCharAscii(p[i]);
    }
  }

  lemma PathCharAscii(c: char)
    requires IsPathChar(c)
    ensures IsAscii(c)
  {
  }

  lemma SchemeAscii(u: string)
    ensures AllAscii(SchemeOf(u))
  {
    var scheme := SchemeOf(u);
    if scheme == "https://" {
      assert AllAscii("https://");
    } else if scheme == "http://" {
      assert AllAscii("http://");
    }
  }

  /** A string that matches `domainPattern` is ASCII throughout, so its ASCII lower-casing is its lower-casing. */
  lemma MatchesIsAscii(u: string)
    requires MatchesDomainPattern(u)
    ensures AllAscii(u)
  {
    SchemeAscii(u);
    HostThenPathAscii(AfterScheme(u));
    AllAsciiConcat(SchemeOf(u), AfterScheme(u));
  }

  lemma HostThenPathAscii(s: string)
    requires HostThenPath(s)
    ensures AllAscii(s)
  {
    var n := SlashIndex(s);
    var host, tail := s[..n], s[n..];
    HostChars(host);
    PathAscii(host);
    PathAscii(tail);
    AllAsciiConcat(host, tail);
    assert host + tail == s;
  }

  /** `u` is built from valid parts. */
  ghost predicate Composed(u: string) {
    exists scheme, labels, path :: ValidParts(scheme, labels, path) && Compose(scheme, labels, path) == u
  }

  /** `domainPattern` matches exactly the strings built from valid parts. */
  lemma DomainPatternIff(u: string)
    ensures MatchesDomainPattern(u) <==> Composed(u)
  {
    if MatchesDomainPattern(u) {
      MatchesIsComposed(u);
    }
    if exists scheme, labels, path :: ValidParts(scheme, labels, path) && Compose(scheme, labels, path) == u {
      var scheme, labels, path :| ValidParts(scheme, labels, path) && Compose(scheme, labels, path) == u;
      ComposeMatches(scheme, labels, path);
    }
  }
}
