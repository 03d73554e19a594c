/** The change-reference resolver and the configuration check shared by the
    Gerrit scripts (`parse_change_url`, `get_config`), with the error every
    stage raises. */
module GerritUtils {
  import opened Wrappers
  import opened Text

  /** The reasons a `GerritError` is raised, one per message the scripts build. */
  datatype Error =
    | InvalidUrl(url: string)
    | MissingChangeRef
    | MissingConfiguration(names: seq<string>)
    | AuthenticationFailed
    | ChangeNotFound
    | HttpError(detail: string)
    | Failed(detail: string)

  /** `str(e)` of the raised `GerritError`. The message ends with what the
      error carries: the rejected URL, the missing names joined with ", ",
      or the exception text. Only a bare exception text can be empty. */
  function Message(e: Error): (r: string)
    ensures e.InvalidUrl? ==> |r| > |e.url| && r[|r| - |e.url|..] == e.url
    ensures e.MissingConfiguration? ==>
              |r| > |Join(e.names, ", ")| && r[|r| - |Join(e.names, ", ")|..] == Join(e.names, ", ")
    ensures e.HttpError? ==> |r| > |e.detail| && r[|r| - |e.detail|..] == e.detail
    ensures e.Failed? ==> r == e.detail
    ensures r == "" ==> e.Failed?
  {
    match e
    case InvalidUrl(url) => "Invalid Gerrit URL: " + url
    case MissingChangeRef => "URL must contain '+/<change_ref>'"
    case MissingConfiguration(names) => "Missing environment variables: " + Join(names, ", ")
    case AuthenticationFailed => "Authentication failed (401)"
    case ChangeNotFound => "Change not found (404)"
    case HttpError(detail) => "HTTP error: " + detail
    case Failed(detail) => detail
  }

  // ---------------------------------------------------------------------
  // Splitting a URL into scheme, authority and path (section 3 of RFC 3986)

  datatype UrlParts = UrlParts(scheme: string, netloc: string, path: string)

  predicate IsAsciiLetter(ch: char)
  {
    ('a' <= ch <= 'z') || ('A' <= ch <= 'Z')
  }

  predicate IsSchemeChar(ch: char)
  {
    IsAsciiLetter(ch) || IsDigit(ch) || ch == '+' || ch == '-' || ch == '.'
  }

  /** ASCII lower-casing, as `urlparse` applies to the scheme. */
  function ToLower(s: string): (r: string)
    ensures |r| == |s|
    ensures forall k :: 0 <= k < |s| ==>
              r[k] == if 'A' <= s[k] <= 'Z' then (s[k] as int + 32) as char else s[k]
  {
    if s == [] then ""
    else [if 'A' <= s[0] <= 'Z' then (s[0] as int + 32) as char else s[0]] + ToLower(s[1..])
  }

  /** The length of the longest prefix of `s` without a character of `stops`. */
  function PrefixWithout(s: string, stops: set<char>): (n: nat)
    ensures n <= |s|
    ensures forall k :: 0 <= k < n ==> s[k] !in stops
    ensures n < |s| ==> s[n] in stops
  {
    if s == [] || s[0] in stops then 0 else 1 + PrefixWithout(s[1..], stops)
  }

  /** A scheme is a letter followed by letters, digits, `+`, `-` or `.`,
      ending at the first colon; it is lower-cased. Without one, the scheme
      is empty and the URL is left whole. */
  function SplitScheme(url: string): (string, string)
  {
    if ':' in url then
      var i := FirstIndex(url, ':');
      if i > 0 && IsAsciiLetter(url[0]) && forall k :: 0 <= k < i ==> IsSchemeChar(url[k])
      then (ToLower(url[..i]), url[i + 1..])
      else ("", url)
    else ("", url)
  }

  /** After `//`, the authority runs to the next `/`, `?` or `#`; without
      `//` there is none. */
  function SplitNetloc(rest: string): (string, string)
  {
    if |rest| >= 2 && rest[..2] == "//" then
      var n := PrefixWithout(rest[2..], {'/', '?', '#'});
      (rest[2..][..n], rest[2..][n..])
    else ("", rest)
  }

  /** `urlparse(url)`, reduced to what `parse_change_url` reads: the path
      ends at the query or fragment. The scheme is lower-case, the authority
      holds no `/`, `?` or `#`, the path no `?` or `#`. */
  function SplitUrl(url: string): (p: UrlParts)
    ensures forall k :: 0 <= k < |p.scheme| ==> !('A' <= p.scheme[k] <= 'Z')
    ensures forall k :: 0 <= k < |p.netloc| ==> p.netloc[k] !in {'/', '?', '#'}
    ensures forall k :: 0 <= k < |p.path| ==> p.path[k] !in {'?', '#'}
  {
    var (scheme, rest) := SplitScheme(url);
    var (netloc, tail) := SplitNetloc(rest);
    UrlParts(scheme, netloc, tail[..PrefixWithout(tail, {'?', '#'})])
  }

  /** The stop-free prefix of `x + y` is `x` when `x` holds no stop and `y`
      is empty or starts with one. */
  lemma {:induction false} PrefixWithoutAt(x: string, y: string, stops: set<char>)
    requires forall k :: 0 <= k < |x| ==> x[k] !in stops
    requires y == [] || y[0] in stops
    ensures PrefixWithout(x + y, stops) == |x|
  {
    if x == [] {
      assert x + y == y;
    } else {
      assert (x + y)[0] == x[0] && (x + y)[1..] == x[1..] + y;
      PrefixWithoutAt(x[1..], y, stops);
    }
  }

  /** A URL `<scheme>://<host><path>`, with a lower-case scheme, a host
      without `/`, `?` or `#`, and a path that starts with `/` and holds no
      query or fragment, splits into exactly those three parts. */
  lemma SplitUrlParts(scheme: string, host: string, path: string)
    requires scheme != [] && forall k :: 0 <= k < |scheme| ==> 'a' <= scheme[k] <= 'z'
    requires forall k :: 0 <= k < |host| ==> host[k] !in {'/', '?', '#'}
    requires path == [] || path[0] == '/'
    requires forall k :: 0 <= k < |path| ==> path[k] !in {'?', '#'}
    ensures SplitUrl(scheme + "://" + host + path) == UrlParts(scheme, host, path)
  {
    var rest := "//" + host + path;
    assert scheme + "://" + host + path == scheme + [':'] + rest;
    SchemeOf(scheme, rest);
    NetlocOf(host, path);
    PrefixWithoutAt(path, [], {'?', '#'});
    assert path + [] == path;
  }

  lemma SchemeOf(scheme: string, rest: string)
    requires scheme != [] && forall k :: 0 <= k < |scheme| ==> 'a' <= scheme[k] <= 'z'
    ensures SplitScheme(scheme + [':'] + rest) == (scheme, rest)
  {
    var url := scheme + [':'] + rest;
    FirstIndexPrefix(scheme + [':'], rest, ':');
    assert (scheme + [':'])[..|scheme|] == scheme;
    assert FirstIndex(scheme + [':'], ':') == |scheme|;
    assert url[..|scheme|] == scheme && url[|scheme| + 1..] == rest;
    assert forall k :: 0 <= k < |scheme| ==> IsSchemeChar(url[k]);
    assert ToLower(scheme) == scheme;
  }

  lemma NetlocOf(host: string, path: string)
    requires forall k :: 0 <= k < |host| ==> host[k] !in {'/', '?', '#'}
    requires path == [] || path[0] == '/'
    ensures SplitNetloc("//" + host + path) == (host, path)
  {
    var rest := "//" + host + path;
    assert rest[..2] == "//" && rest[2..] == host + path;
    PrefixWithoutAt(host, path, {'/', '?', '#'});
    assert (host + path)[..|host|] == host && (host + path)[|host|..] == path;
  }

  // ---------------------------------------------------------------------
  // parse_change_url

  /** The non-empty parts of a `/`-separated path, in order. */
  function NonEmpty(parts: seq<string>): (r: seq<string>)
    ensures forall k :: 0 <= k < |r| ==> r[k] != "" && r[k] in parts
    ensures forall p :: p in parts && p != "" ==> p in r
  {
    if parts == [] then []
    else (if parts[0] != "" then [parts[0]] else []) + NonEmpty(parts[1..])
  }

  /** The filter keeps order: it filters each half of a list separately. */
  lemma {:induction false} NonEmptyAppend(a: seq<string>, b: seq<string>)
    ensures NonEmpty(a + b) == NonEmpty(a) + NonEmpty(b)
  {
    if a != [] {
      var head := if a[0] != "" then [a[0]] else [];
      assert (a + b)[0] == a[0] && (a + b)[1..] == a[1..] + b;
      NonEmptyAppend(a[1..], b);
      assert NonEmpty(a + b) == head + (NonEmpty(a[1..]) + NonEmpty(b));
      assert NonEmpty(a) == head + NonEmpty(a[1..]);
    } else {
      assert a + b == b;
    }
  }

  /** The segments of two paths joined by a slash are those of each path. */
  lemma SegmentsAppend(a: string, b: string)
    ensures Segments(a + "/" + b) == Segments(a) + Segments(b)
  {
    SplitAppend(a, b, '/');
    NonEmptyAppend(Split(a, '/'), Split(b, '/'));
  }

  /** An empty path has no segments. */
  lemma NoSegments()
    ensures Segments([]) == []
  {
    assert Split([], '/') == [[]];
    assert NonEmpty([[]])[..] == [];
  }

  /** Empty segments play no part: a doubled slash leaves the segments as
      they were, ... */
  lemma DoubleSlash(a: string, b: string)
    ensures Segments(a + "//" + b) == Segments(a + "/" + b)
  {
    var e: string := [];
    NoSegments();
    assert a + "//" + b == a + "/" + (e + "/" + b);
    SegmentsAppend(a, e + "/" + b);
    SegmentsAppend(e, b);
    assert Segments(e + "/" + b) == Segments(b);
    SegmentsAppend(a, b);
  }

  /** ... and so does a trailing slash. */
  lemma TrailingSlash(a: string)
    ensures Segments(a + "/") == Segments(a)
  {
    var e: string := [];
    NoSegments();
    assert a + "/" == a + "/" + e;
    SegmentsAppend(a, e);
    assert Segments(a) + [] == Segments(a);
  }

  /** So a change URL resolves alike with a doubled or a trailing slash. */
  lemma ExtraSlashesIgnored(url: string, scheme: string, host: string, a: string, b: string)
    ensures ChangeFromParts(url, UrlParts(scheme, host, a + "//" + b))
            == ChangeFromParts(url, UrlParts(scheme, host, a + "/" + b))
    ensures ChangeFromParts(url, UrlParts(scheme, host, a + "/"))
            == ChangeFromParts(url, UrlParts(scheme, host, a))
  {
    DoubleSlash(a, b);
    TrailingSlash(a);
  }

  function Segments(path: string): seq<string>
  {
    NonEmpty(Split(path, '/'))
  }

  /** `(base_url, change_ref)` from the parts of `url`: only the two errors
      of `parse_change_url` can arise; the base is the scheme and host, the
      reference one non-empty path segment. */
  function ChangeFromParts(url: string, parts: UrlParts): (r: Result<(string, string), Error>)
    ensures r.Failure? ==> r.error == InvalidUrl(url) || r.error == MissingChangeRef
    ensures r.Success? ==> && parts.scheme in {"http", "https"} && parts.netloc != ""
                           && r.value.0 == parts.scheme + "://" + parts.netloc
                           && r.value.1 != "" && '/' !in r.value.1
  {
    if parts.scheme !in {"http", "https"} || parts.netloc == "" then Failure(InvalidUrl(url))
    else
      var base := parts.scheme + "://" + parts.netloc;
      var segs := Segments(parts.path);
      if "+" in segs && FirstIndex(segs, "+") + 1 < |segs| then
        var ref := segs[FirstIndex(segs, "+") + 1];
        assert ref in Split(parts.path, '/');
        Success((base, ref))
      else Failure(MissingChangeRef)
  }

  /** `parse_change_url(url)`: the base URL is `http://` or `https://` and
      a host; the reference is one non-empty path segment. */
  function ParseChangeUrl(url: string): (r: Result<(string, string), Error>)
    ensures r.Failure? ==> r.error == InvalidUrl(url) || r.error == MissingChangeRef
    ensures r.Success? ==> && SplitUrl(url).scheme in {"http", "https"} && SplitUrl(url).netloc != ""
                           && r.value.0 == SplitUrl(url).scheme + "://" + SplitUrl(url).netloc
                           && r.value.1 != "" && '/' !in r.value.1
  {
    ChangeFromParts(url, SplitUrl(url))
  }

  /** The whole contract: an `http`/`https` scheme and a host are required
      (else `InvalidUrl`); then the path must hold a `+` segment that is not
      the last non-empty one (else `MissingChangeRef`); the base is the scheme
      and host alone, and the reference is the non-empty segment that follows
      the first `+`. */
  lemma ChangeFromPartsContract(url: string, parts: UrlParts)
    ensures var r := ChangeFromParts(url, parts);
            var segs := Segments(parts.path);
            && (r == Failure(InvalidUrl(url)) <==> parts.scheme !in {"http", "https"} || parts.netloc == "")
            && (r == Failure(MissingChangeRef) <==>
                  parts.scheme in {"http", "https"} && parts.netloc != ""
                  && ("+" !in segs || FirstIndex(segs, "+") == |segs| - 1))
            && (r.Success? ==>
                  && r.value.0 == parts.scheme + "://" + parts.netloc
                  && "+" in segs
                  && FirstIndex(segs, "+") + 1 < |segs|
                  && r.value.1 == segs[FirstIndex(segs, "+") + 1]
                  && r.value.1 != "" && '/' !in r.value.1)
  {
    var segs := Segments(parts.path);
    if "+" in segs && FirstIndex(segs, "+") + 1 < |segs| {
      var ref := segs[FirstIndex(segs, "+") + 1];
      assert ref in Split(parts.path, '/');
    }
  }

  lemma {:induction false} NonEmptyKeeps(parts: seq<string>)
    requires forall k :: 0 <= k < |parts| ==> parts[k] != ""
    ensures NonEmpty(parts) == parts
  {
    if parts != [] {
      NonEmptyKeeps(parts[1..]);
    }
  }

  /** The path of a change URL as the web UI writes it: a leading slash,
      then `/`-joined segments. Reading it back gives the segments. */
  lemma SegmentsOfPath(segs: seq<string>)
    requires |segs| >= 1
    requires forall k :: 0 <= k < |segs| ==> segs[k] != "" && '/' !in segs[k]
    ensures Segments("/" + Join(segs, "/")) == segs
  {
    var all := [""] + segs;
    assert all[1..] == segs;
    assert Join(all, "/") == "/" + Join(segs, "/");
    SplitJoin(all, '/');
    NonEmptyKeeps(segs);
  }

  /** Round trip: for any project path without a `+` segment, the URL
      `<scheme>://<host>/<project…>/+/<ref>[/<more…>]` resolves to
      `(<scheme>://<host>, <ref>)`. */
  lemma ChangeUrlRoundTrip(url: string, scheme: string, host: string,
                           project: seq<string>, ref: string, more: seq<string>)
    requires scheme in {"http", "https"} && host != ""
    requires forall k :: 0 <= k < |project| ==> project[k] != "" && '/' !in project[k]
    requires forall k :: 0 <= k < |more| ==> more[k] != "" && '/' !in more[k]
    requires "+" !in project
    requires ref != "" && '/' !in ref
    ensures ChangeFromParts(url, UrlParts(scheme, host, "/" + Join(project + ["+", ref] + more, "/")))
            == Success((scheme + "://" + host, ref))
  {
    var segs := project + ["+", ref] + more;
    WellFormedSegments(project, ref, more);
    assert segs[|project|] == "+" && segs[|project| + 1] == ref;
    assert segs[..|project|] == project;
    RefInPath(url, scheme, host, segs, |project|);
  }

  /** The same round trip from the URL text: `parse_change_url` on
      `http(s)://<host>/<project…>/+/<ref>[/<more…>]` gives
      `(http(s)://<host>, <ref>)`. */
  lemma ParseChangeUrlRoundTrip(scheme: string, host: string,
                                project: seq<string>, ref: string, more: seq<string>)
    requires scheme in {"http", "https"} && host != ""
    requires forall k :: 0 <= k < |host| ==> host[k] !in {'/', '?', '#'}
    requires forall k :: 0 <= k < |project| ==> project[k] != "" && '/' !in project[k]
    requires forall k :: 0 <= k < |more| ==> more[k] != "" && '/' !in more[k]
    requires "+" !in project
    requires ref != "" && '/' !in ref
    requires '?' !in Join(project + ["+", ref] + more, "/")
    requires '#' !in Join(project + ["+", ref] + more, "/")
    ensures ParseChangeUrl(scheme + "://" + host + "/" + Join(project + ["+", ref] + more, "/"))
            == Success((scheme + "://" + host, ref))
  {
    var joined := Join(project + ["+", ref] + more, "/");
    var path := "/" + joined;
    var url := scheme + "://" + host + path;
    assert url == scheme + "://" + host + "/" + joined;
    RootedPath(joined);
    LowerScheme(scheme);
    SplitUrlParts(scheme, host, path);
    ChangeUrlRoundTrip(url, scheme, host, project, ref, more);
  }

  lemma LowerScheme(scheme: string)
    requires scheme in {"http", "https"}
    ensures scheme != [] && forall k :: 0 <= k < |scheme| ==> 'a' <= scheme[k] <= 'z'
  {
  }

  lemma RootedPath(joined: string)
    requires '?' !in joined && '#' !in joined
    ensures var path := "/" + joined;
            path[0] == '/' && forall k :: 0 <= k < |path| ==> path[k] !in {'?', '#'}
  {
    var path := "/" + joined;
    forall k | 0 <= k < |path| ensures path[k] !in {'?', '#'} {
      if k > 0 {
        assert path[k] == joined[k - 1];
      }
    }
  }

  lemma RefInPath(url: string, scheme: string, host: string, segs: seq<string>, k: nat)
    requires scheme in {"http", "https"} && host != ""
    requires forall i :: 0 <= i < |segs| ==> segs[i] != "" && '/' !in segs[i]
    requires k + 1 < |segs| && segs[k] == "+" && "+" !in segs[..k]
    ensures ChangeFromParts(url, UrlParts(scheme, host, "/" + Join(segs, "/")))
            == Success((scheme + "://" + host, segs[k + 1]))
  {
    SegmentsOfPath(segs);
    RefAfterPlus(url, UrlParts(scheme, host, "/" + Join(segs, "/")), k);
  }

  /** Where the first `+` segment stands before the last one, the reference
      is the segment after it. */
  lemma RefAfterPlus(url: string, parts: UrlParts, k: nat)
    requires parts.scheme in {"http", "https"} && parts.netloc != ""
    requires k + 1 < |Segments(parts.path)| && Segments(parts.path)[k] == "+"
    requires "+" !in Segments(parts.path)[..k]
    ensures ChangeFromParts(url, parts)
            == Success((parts.scheme + "://" + parts.netloc, Segments(parts.path)[k + 1]))
  {
    var segs := Segments(parts.path);
    assert "+" in segs;
    assert FirstIndex(segs, "+") == k;
  }

  lemma WellFormedSegments(project: seq<string>, ref: string, more: seq<string>)
    requires forall k :: 0 <= k < |project| ==> project[k] != "" && '/' !in project[k]
    requires forall k :: 0 <= k < |more| ==> more[k] != "" && '/' !in more[k]
    requires ref != "" && '/' !in ref
    ensures var segs := project + ["+", ref] + more;
            forall k :: 0 <= k < |segs| ==> segs[k] != "" && '/' !in segs[k]
  {
    var segs := project + ["+", ref] + more;
    forall k | 0 <= k < |segs| ensures segs[k] != "" && '/' !in segs[k] {
      if k < |project| {
        assert segs[k] == project[k];
      } else if k == |project| {
        assert segs[k] == "+";
      } else if k == |project| + 1 {
        assert segs[k] == ref;
      } else {
        assert segs[k] == more[k - |project| - 2];
      }
    }
  }

  // ---------------------------------------------------------------------
  // get_config

  /** The environment variables `get_config` reads, in the order it checks them. */
  const ConfigNames: seq<string> := ["GERRIT_BASE_URL", "GERRIT_USER", "GERRIT_HTTP_PASSWORD"]

  datatype Config = Config(baseUrl: string, username: string, password: string)

  /** The names whose (stripped) value is empty, in the order given. */
  function MissingOf(names: seq<string>, values: seq<string>): (r: seq<string>)
    requires |names| == |values|
    ensures |r| <= |names|
  {
    if names == [] then []
    else (if values[0] == "" then [names[0]] else []) + MissingOf(names[1..], values[1..])
  }

  predicate Distinct(names: seq<string>)
  {
    forall i, j :: 0 <= i < j < |names| ==> names[i] != names[j]
  }

  lemma DistinctTail(names: seq<string>)
    requires names != [] && Distinct(names)
    ensures Distinct(names[1..]) && names[0] !in names[1..]
  {
    assert forall k :: 0 <= k < |names[1..]| ==> names[1..][k] == names[k + 1];
  }

  /** Nothing is reported exactly when no value is blank: the `if missing:`
      test. */
  lemma {:induction false} NoneMissing(names: seq<string>, values: seq<string>)
    requires |names| == |values|
    ensures MissingOf(names, values) == [] <==> forall k :: 0 <= k < |values| ==> values[k] != ""
  {
    if names != [] {
      NoneMissing(names[1..], values[1..]);
      assert forall k :: 1 <= k < |values| ==> values[k] == values[1..][k - 1];
    }
  }

  lemma {:induction false} MissingOfSub(names: seq<string>, values: seq<string>)
    requires |names| == |values|
    ensures forall x :: x in MissingOf(names, values) ==> x in names
  {
    if names != [] {
      MissingOfSub(names[1..], values[1..]);
    }
  }

  /** A name is reported exactly when its (stripped) value is empty. */
  lemma {:induction false} MissingOfMembers(names: seq<string>, values: seq<string>, k: nat)
    requires |names| == |values| && k < |names| && Distinct(names)
    ensures names[k] in MissingOf(names, values) <==> values[k] == ""
  {
    var rest := MissingOf(names[1..], values[1..]);
    DistinctTail(names);
    MissingOfSub(names[1..], values[1..]);
    if k > 0 {
      MissingOfMembers(names[1..], values[1..], k - 1);
      assert names[k] == names[1..][k - 1];
      assert names[k] != names[0];
    }
  }

  lemma MissingOfStep(names: seq<string>, values: seq<string>)
    requires |names| == |values| && names != []
    ensures MissingOf(names, values)
            == (if values[0] == "" then [names[0]] else []) + MissingOf(names[1..], values[1..])
  {
  }

  /** The one-name list a blank value contributes to the report. */
  function IfBlank(value: string, name: string): seq<string>
  {
    if value == "" then [name] else []
  }

  lemma MissingOfConfigNames(b: string, u: string, p: string)
    ensures MissingOf(ConfigNames, [b, u, p])
            == IfBlank(b, "GERRIT_BASE_URL") + IfBlank(u, "GERRIT_USER") + IfBlank(p, "GERRIT_HTTP_PASSWORD")
  {
    var n1, v1 := ["GERRIT_USER", "GERRIT_HTTP_PASSWORD"], [u, p];
    var n2, v2 := ["GERRIT_HTTP_PASSWORD"], [p];
    assert ConfigNames[1..] == n1 && [b, u, p][1..] == v1;
    assert n1[1..] == n2 && v1[1..] == v2;
    assert n2[1..] == [] && v2[1..] == [];
    MissingOfStep(ConfigNames, [b, u, p]);
    MissingOfStep(n1, v1);
    MissingOfStep(n2, v2);
    assert MissingOf(n2[1..], v2[1..]) == [];
  }

  /** Each variable is reported exactly when its value is blank. */
  lemma ConfigNamesReported(b: string, u: string, p: string)
    ensures "GERRIT_BASE_URL" in MissingOf(ConfigNames, [b, u, p]) <==> b == ""
    ensures "GERRIT_USER" in MissingOf(ConfigNames, [b, u, p]) <==> u == ""
    ensures "GERRIT_HTTP_PASSWORD" in MissingOf(ConfigNames, [b, u, p]) <==> p == ""
  {
    assert ConfigNames[0][7] == 'B' && ConfigNames[1][7] == 'U' && ConfigNames[2][7] == 'H';
    assert Distinct(ConfigNames);
    MissingOfMembers(ConfigNames, [b, u, p], 0);
    MissingOfMembers(ConfigNames, [b, u, p], 1);
    MissingOfMembers(ConfigNames, [b, u, p], 2);
  }

  /** `get_config()` on the three raw values (an unset variable reads as ""):
      the stripped values when none is blank, otherwise the error naming
      every blank one, in the fixed order of `ConfigNames`. */
  method GetConfig(baseUrl: string, username: string, password: string)
    returns (r: Result<Config, Error>)
    ensures r.Failure? <==> Strip(baseUrl) == "" || Strip(username) == "" || Strip(password) == ""
    ensures r.Success? ==> r.value == Config(Strip(baseUrl), Strip(username), Strip(password))
    ensures r.Failure? ==>
              r.error == MissingConfiguration(
                           MissingOf(ConfigNames, [Strip(baseUrl), Strip(username), Strip(password)]))
  {
    var b := Strip(baseUrl);
    var u := Strip(username);
    var p := Strip(password);
    MissingOfConfigNames(b, u, p);
    var missing: seq<string> := [];
    if b == "" {
      missing := missing + ["GERRIT_BASE_URL"];
    }
    assert missing == IfBlank(b, "GERRIT_BASE_URL");
    ghost var m1 := missing;
    if u == "" {
      missing := missing + ["GERRIT_USER"];
    }
    assert missing == m1 + IfBlank(u, "GERRIT_USER");
    ghost var m2 := missing;
    if p == "" {
      missing := missing + ["GERRIT_HTTP_PASSWORD"];
    }
    assert missing == m2 + IfBlank(p, "GERRIT_HTTP_PASSWORD");
    assert missing == MissingOf(ConfigNames, [b, u, p]);
    assert |missing| == |m1| + |IfBlank(u, "GERRIT_USER")| + |IfBlank(p, "GERRIT_HTTP_PASSWORD")|;
    if missing != [] {
      return Failure(MissingConfiguration(missing));
    }
    return Success(Config(b, u, p));
  }

  /** With all three unset or blank, the error lists all three names. */
  lemma AllMissing(baseUrl: string, username: string, password: string)
    requires AllSpace(baseUrl) && AllSpace(username) && AllSpace(password)
    ensures MissingOf(ConfigNames, [Strip(baseUrl), Strip(username), Strip(password)]) == ConfigNames
  {
    StripEmptyIffAllSpace(baseUrl);
    StripEmptyIffAllSpace(username);
    StripEmptyIffAllSpace(password);
    assert [Strip(baseUrl), Strip(username), Strip(password)] == ["", "", ""];
    MissingOfConfigNames("", "", "");
    assert IfBlank("", "GERRIT_BASE_URL") == [ConfigNames[0]];
    assert IfBlank("", "GERRIT_USER") == [ConfigNames[1]];
    assert IfBlank("", "GERRIT_HTTP_PASSWORD") == [ConfigNames[2]];
    assert [ConfigNames[0]] + [ConfigNames[1]] + [ConfigNames[2]] == ConfigNames;
  }

  lemma JoinConfigNames()
    ensures Join(ConfigNames, ", ") == "GERRIT_BASE_URL" + ", " + "GERRIT_USER" + ", " + "GERRIT_HTTP_PASSWORD"
  {
    var n1, n2 := ["GERRIT_USER", "GERRIT_HTTP_PASSWORD"], ["GERRIT_HTTP_PASSWORD"];
    assert ConfigNames[1..] == n1 && n1[1..] == n2;
    assert Join(n2, ", ") == "GERRIT_HTTP_PASSWORD";
    assert Join(n1, ", ") == "GERRIT_USER" + ", " + Join(n2, ", ");
    assert Join(ConfigNames, ", ") == "GERRIT_BASE_URL" + ", " + Join(n1, ", ");
  }
}
