/** The command of the comment fetcher (`main` and the error handling of
    `fetch_comments`): resolve the change argument, check the
    configuration, turn a failed request into an error, and report either
    the threads or the error, with exit code 0 or 1. The request itself is
    not modelled: its outcome is a parameter. */
module GetComments {
  import opened Wrappers
  import opened Text
  import opened GerritUtils
  import opened Threads

  /** How the two requests of `fetch_comments` ended: with the comments and
      the latest patch set number, with an HTTP error (whose response, if
      any, has a status code), or with any other exception. */
  datatype Fetched =
    | Fetched(raw: Raw, latestPatchset: Option<int>)
    | HttpFailure(status: Option<int>, detail: string)
    | OtherFailure(detail: string)

  /** The three environment variables as read (unset reads as ""). */
  datatype Env = Env(baseUrl: string, user: string, password: string)

  /** What the command prints: the result, or the error it caught. */
  datatype Report =
    | Report(change: string, latestPatchset: Option<int>, unresolvedOnly: bool,
             threadCount: int, threads: seq<Thread>)
    | ErrorReport(change: string, revision: Option<string>, errorType: string, message: string)

  /** The error an `HTTPError` becomes: a missing response counts as status
      0; 401 and 404 have their own errors, every other status a generic
      one carrying the exception text. */
  function StatusError(status: Option<int>, detail: string): (e: Error)
    ensures e == AuthenticationFailed <==> status == Some(401)
    ensures e == ChangeNotFound <==> status == Some(404)
    ensures e.HttpError? <==> status != Some(401) && status != Some(404)
    ensures e.HttpError? ==> e.detail == detail
  {
    var code := if status.Some? then status.value else 0;
    if code == 401 then AuthenticationFailed
    else if code == 404 then ChangeNotFound
    else HttpError(detail)
  }

  /** `s.startswith(prefix)`. */
  predicate StartsWith(s: string, prefix: string)
  {
    |s| >= |prefix| && s[..|prefix|] == prefix
  }

  /** The change argument is a URL when it starts with an HTTP scheme; the
      URL parser then reads that scheme from it. */
  predicate IsUrl(change: string)
    ensures IsUrl(change) ==> SplitUrl(change).scheme in {"http", "https"}
  {
    UrlScheme(change);
    StartsWith(change, "http://") || StartsWith(change, "https://")
  }

  lemma UrlScheme(c: string)
    ensures StartsWith(c, "http://") ==> SplitScheme(c).0 == "http"
    ensures StartsWith(c, "https://") ==> SplitScheme(c).0 == "https"
  {
    if StartsWith(c, "http://") {
      assert c[..5] == c[..7][..5] == "http:";
      assert c == c[..5] + c[5..];
      assert c == "http" + [':'] + c[5..];
      SchemeOf("http", c[5..]);
    }
    if StartsWith(c, "https://") {
      assert c[..6] == c[..8][..6] == "https:";
      assert c == c[..6] + c[6..];
      assert c == "https" + [':'] + c[6..];
      SchemeOf("https", c[6..]);
    }
  }

  /** Some variable is blank after stripping. */
  predicate Blank(env: Env)
  {
    Strip(env.baseUrl) == "" || Strip(env.user) == "" || Strip(env.password) == ""
  }

  function MissingNames(env: Env): seq<string>
  {
    MissingOf(ConfigNames, [Strip(env.baseUrl), Strip(env.user), Strip(env.password)])
  }

  /** The exit status of the command. */
  function ExitCode(report: Report): (code: int)
    ensures code == 0 || code == 1
    ensures code == 1 <==> report.ErrorReport?
  {
    if report.ErrorReport? then 1 else 0
  }

  /** The change reference a change argument names: the `+/` segment of a
      change URL, or the argument itself. */
  function ChangeRef(c: string): (r: string)
    ensures !IsUrl(c) ==> r == c
    ensures IsUrl(c) && ParseChangeUrl(c).Success? ==> r != "" && '/' !in r
  {
    if IsUrl(c) && ParseChangeUrl(c).Success? then ParseChangeUrl(c).value.1 else c
  }

  /** The error the command reports, if any: the first of the URL, the
      configuration and the requests that fails. */
  function RunError(c: string, env: Env, fetched: Fetched): (e: Option<Error>)
    ensures e == None <==> (IsUrl(c) ==> ParseChangeUrl(c).Success?) && !Blank(env) && fetched.Fetched?
  {
    if IsUrl(c) && ParseChangeUrl(c).Failure? then Some(ParseChangeUrl(c).error)
    else if Blank(env) then Some(MissingConfiguration(MissingNames(env)))
    else match fetched
      case HttpFailure(status, detail) => Some(StatusError(status, detail))
      case OtherFailure(detail) => Some(Failed(detail))
      case Fetched(_, _) => None
  }

  /** `main` after argument parsing: `--all` is `showAll`, `--revision` is
      `revision` ("" when not given). */
  method Run(change: string, revision: string, showAll: bool, env: Env, fetched: Fetched)
    returns (report: Report, exitCode: int)
    ensures exitCode == ExitCode(report)
    ensures report.ErrorReport? <==> RunError(Strip(change), env, fetched).Some?
    // Success: the threads are those the thread builder makes of the
    // fetched comments.
    ensures report.Report? ==>
              && report.change == ChangeRef(Strip(change))
              && report.unresolvedOnly == !showAll
              && report.latestPatchset == fetched.latestPatchset
              && report.threads == ThreadList(fetched.raw, !showAll)
              && report.threadCount == |report.threads|
    // Failure: the first step that failed names the error.
    ensures report.ErrorReport? ==>
              && report.change == Strip(change)
              && report.revision == (if revision == "" then None else Some(Strip(revision)))
              && report.errorType == "GerritError"
              && report.message == Message(RunError(Strip(change), env, fetched).value)
  {
    var c := Strip(change);
    var rev: Option<string> := if revision == "" then None else Some(Strip(revision));
    var unresolvedOnly := !showAll;
    var changeRef: string := c;
    var err: Option<Error> := None;
    if IsUrl(c) {
      var parsed := ParseChangeUrl(c);
      if parsed.Failure? {
        err := Some(parsed.error);
      } else {
        changeRef := parsed.value.1;
      }
    } else {
      var config := GetConfig(env.baseUrl, env.user, env.password);
      if config.Failure? {
        err := Some(config.error);
      }
    }
    if err == None {
      // `fetch_comments` checks the configuration again, whatever the change.
      var config := GetConfig(env.baseUrl, env.user, env.password);
      if config.Failure? {
        err := Some(config.error);
      } else {
        match fetched
        case HttpFailure(status, detail) =>
          err := Some(StatusError(status, detail));
        case OtherFailure(detail) =>
          err := Some(Failed(detail));
        case Fetched(raw, latest) =>
          var threads := BuildThreads(raw, unresolvedOnly);
          report := Report(changeRef, latest, unresolvedOnly, |threads|, threads);
      }
    }
    assert err == RunError(c, env, fetched);
    if err.Some? {
      report := ErrorReport(c, rev, "GerritError", Message(err.value));
    }
    exitCode := ExitCode(report);
  }

  /** A change URL does not spare the configuration: with the base URL
      unset the command still fails, although the URL names the server. */
  lemma {:induction false} UrlStillNeedsBaseUrl(change: string, user: string, password: string, fetched: Fetched)
    requires IsUrl(Strip(change)) && ParseChangeUrl(Strip(change)).Success?
    requires Strip(user) != "" && Strip(password) != ""
    ensures RunError(Strip(change), Env("", user, password), fetched)
            == Some(MissingConfiguration(["GERRIT_BASE_URL"]))
  {
    var env := Env("", user, password);
    assert Strip("") == "";
    ConfigurationBeforeRequest(Strip(change), env, fetched);
    MissingOfConfigNames("", Strip(user), Strip(password));
    assert IfBlank(Strip(user), "GERRIT_USER") == [] && IfBlank(Strip(password), "GERRIT_HTTP_PASSWORD") == [];
    assert IfBlank("", "GERRIT_BASE_URL") == ["GERRIT_BASE_URL"];
    assert MissingNames(env) == MissingOf(ConfigNames, ["", Strip(user), Strip(password)]);
    assert MissingNames(env) == ["GERRIT_BASE_URL"];
  }

  /** A blank variable stops the command before any request, with an error
      that names at least one variable. */
  lemma {:induction false} ConfigurationBeforeRequest(c: string, env: Env, fetched: Fetched)
    requires !IsUrl(c) || ParseChangeUrl(c).Success?
    requires Blank(env)
    ensures RunError(c, env, fetched) == Some(MissingConfiguration(MissingNames(env)))
    ensures MissingNames(env) != []
  {
    var b, u, p := Strip(env.baseUrl), Strip(env.user), Strip(env.password);
    MissingOfConfigNames(b, u, p);
    assert |MissingNames(env)| == (if b == "" then 1 else 0) + (if u == "" then 1 else 0) + (if p == "" then 1 else 0);
  }

  /** A malformed change URL is reported before anything else is looked at. */
  lemma UrlBeforeConfiguration(c: string, env: Env, fetched: Fetched)
    requires IsUrl(c) && ParseChangeUrl(c).Failure?
    ensures RunError(c, env, fetched) == Some(ParseChangeUrl(c).error)
    ensures RunError(c, env, fetched).value.InvalidUrl? || RunError(c, env, fetched).value.MissingChangeRef?
  {
    ChangeFromPartsContract(c, SplitUrl(c));
  }

  /** The messages of the classified HTTP errors. */
  lemma StatusMessages(detail: string)
    ensures Message(StatusError(Some(401), detail)) == "Authentication failed (401)"
    ensures Message(StatusError(Some(404), detail)) == "Change not found (404)"
    ensures Message(StatusError(None, detail)) == "HTTP error: " + detail
    ensures forall s :: s != 401 && s != 404 ==> Message(StatusError(Some(s), detail)) == "HTTP error: " + detail
  {
  }
}
