/**
 * Choosing and opening the database at startup: the connection URL read
 * from the `DATABASE_URL` environment variable (absent or empty means the
 * local SQLite file), the masked form of it that is logged, the rewrite of
 * the legacy `postgres://` scheme, the driver arguments chosen from the URL,
 * the bounded retry loop that opens the engine, and the fallback to a second
 * SQLite file when no attempt succeeds.
 *
 * The environment variable is a parameter. Each connection attempt's outcome
 * (creating the engine and running `SELECT 1`) is an input: attempt k, counted
 * from 0, succeeds when `outcomes[k]` is true. Sleeps are counted.
 */
module Database {
  import opened Wrappers
  import opened Text

  const DefaultUrl := "sqlite:///./student_course_api.db"
  const FallbackUrl := "sqlite:///./fallback.db"
  const LegacyPrefix := "postgres://"
  const PostgresPrefix := "postgresql://"
  const Mask := ":****@"

  /** Default `max_retries` of `get_engine`. */
  const MaxRetries := 5

  // ----- The logged URL -----

  /**
   * The URL as the startup log shows it, as written: the text before the
   * first ':' (the scheme), the mask, and the text between the first and the
   * second '@'. A URL with no '@', or no ':' before its first '@', is shown
   * unchanged.
   */
  function MaskUrl(url: string): (r: string)
    ensures '@' !in url ==> r == url
    ensures '@' in url && ':' !in url[..Find(url, '@')] ==> r == url
    ensures '@' in url && ':' in url[..Find(url, '@')] ==>
      r == Before(url, ':') + Mask + Before(After(url, '@'), '@')
  {
    if '@' in url then
      var parts := Split(url, '@');
      if ':' in parts[0] then
        BeforeInPrefix(url, Find(url, '@'), ':');
        var authParts := Split(parts[0], ':');
        authParts[0] + Mask + parts[1]
      else url
    else url
  }

  /**
   * The URL as the startup log should show it: the credentials end at the
   * LAST '@', so nothing between the first ':' and that '@' survives, a
   * password that itself holds '@' included.
   */
  function MaskCredentials(url: string): (r: string)
    ensures '@' !in url ==> r == url
    ensures '@' in url && ':' !in url[..RFind(url, '@')] ==> r == url
    ensures '@' in url && ':' in url[..RFind(url, '@')] ==>
      && Find(url, ':') < RFind(url, '@')
      && r == url[..Find(url, ':')] + Mask + url[RFind(url, '@') + 1..]
      && '@' !in url[RFind(url, '@') + 1..]
  {
    var at := RFind(url, '@');
    if at < 0 then url
    else
      var credentials := url[..at];
      if ':' in credentials then
        BeforeInPrefix(url, at, ':');
        Split(credentials, ':')[0] + Mask + url[at + 1..]
      else url
  }

  /**
   * Whenever the credentials hold two '@' (a user name of the form
   * `user@server`, or a password holding '@'), the masking as written shows
   * the text between the first and the second '@' and drops the host:
   * `head` runs from the scheme's ':' to the first '@', and `leaked` runs to
   * the second.
   */
  lemma MaskUrlLeaksPasswordFragment(scheme: string, head: string, leaked: string, host: string)
    requires ':' !in scheme && '@' !in scheme && '@' !in head && '@' !in leaked
    ensures MaskUrl(scheme + ":" + head + "@" + leaked + "@" + host) == scheme + Mask + leaked
  {
    var credentials := scheme + ":" + head;
    var rest := leaked + "@" + host;
    var url := credentials + "@" + rest;
    assert url == scheme + ":" + head + "@" + leaked + "@" + host;
    var at := |credentials|;
    assert Find(url, '@') == at by {
      assert url[..at] == credentials && url[at] == '@';
      FindIs(url, '@', at);
    }
    assert ':' in url[..at] by {
      assert url[..at][|scheme|] == ':';
    }
    assert Before(url, ':') == scheme by {
      assert url[..|scheme|] == scheme && url[|scheme|] == ':';
      BeforeIs(url, ':', |scheme|);
    }
    assert Before(After(url, '@'), '@') == leaked by {
      assert After(url, '@') == rest;
      assert rest[..|leaked|] == leaked && rest[|leaked|] == '@';
      BeforeIs(rest, '@', |leaked|);
    }
  }

  /**
   * The corrected masking of the same URLs hides the whole password, its '@'
   * included, and shows the host.
   */
  lemma MaskCredentialsHidesPassword(scheme: string, head: string, leaked: string, host: string)
    requires ':' !in scheme && '@' !in host
    ensures MaskCredentials(scheme + ":" + head + "@" + leaked + "@" + host) == scheme + Mask + host
  {
    var url := scheme + ":" + head + "@" + leaked + "@" + host;
    var at := |scheme| + 1 + |head| + 1 + |leaked|;
    assert url[at + 1..] == host;
    RFindIs(url, '@', at);
    assert url[..|scheme|] == scheme;
    FindIs(url, ':', |scheme|);
  }

  /**
   * What the startup log shows: the URL masked as written when `DATABASE_URL`
   * is set to a non-empty value, and a warning without URL otherwise.
   */
  function LoggedUrl(env: Option<string>): (r: Option<string>)
    ensures r.None? <==> env.None? || env.value == ""
    ensures r.Some? ==> r.value == MaskUrl(env.value)
  {
    if env.Some? && env.value != "" then Some(MaskUrl(env.value)) else None
  }

  /** What the startup log would show with the corrected masking. */
  function LoggedUrlCorrected(env: Option<string>): (r: Option<string>)
    ensures r.None? <==> env.None? || env.value == ""
    ensures r.Some? ==> r.value == MaskCredentials(env.value)
  {
    if env.Some? && env.value != "" then Some(MaskCredentials(env.value)) else None
  }

  /**
   * A set `DATABASE_URL` whose credentials hold two '@' is logged with the
   * text between them, and the corrected log shows the host instead.
   */
  lemma LoggedUrlLeaksCredentials(scheme: string, head: string, leaked: string, host: string)
    requires ':' !in scheme && '@' !in scheme && '@' !in head && '@' !in leaked && '@' !in host
    ensures LoggedUrl(Some(scheme + ":" + head + "@" + leaked + "@" + host)) == Some(scheme + Mask + leaked)
    ensures LoggedUrlCorrected(Some(scheme + ":" + head + "@" + leaked + "@" + host)) == Some(scheme + Mask + host)
  {
    MaskUrlLeaksPasswordFragment(scheme, head, leaked, host);
    MaskCredentialsHidesPassword(scheme, head, leaked, host);
  }

  // ----- The URL the service connects with -----

  /** `DATABASE_URL`, or the local SQLite file when it is unset or empty. */
  function ConfiguredUrl(env: Option<string>): (r: string)
    ensures env.None? || env.value == "" ==> r == DefaultUrl
    ensures env.Some? && env.value != "" ==> r == env.value
    ensures r != ""
  {
    if env.None? || env.value == "" then DefaultUrl else env.value
  }

  /**
   * The one-time rewrite of the legacy scheme: a URL that starts with
   * "postgres://" gets "postgresql://" in place of that prefix; any other URL
   * is kept. No rewritten URL starts with the legacy prefix.
   */
  function NormalizeScheme(url: string): (r: string)
    ensures StartsWith(url, LegacyPrefix) ==> r == PostgresPrefix + url[|LegacyPrefix|..]
    ensures !StartsWith(url, LegacyPrefix) ==> r == url
    ensures !StartsWith(r, LegacyPrefix)
    ensures |r| >= |url|
  {
    if StartsWith(url, LegacyPrefix) then
      var r := ReplaceFirst(url, LegacyPrefix, PostgresPrefix);
      assert r[8] == 'q';
      r
    else
      url
  }

  /** Rewriting twice is rewriting once. */
  lemma NormalizeSchemeIdempotent(url: string)
    ensures NormalizeScheme(NormalizeScheme(url)) == NormalizeScheme(url)
  {
  }

  /** The URL the service connects with: the configured one, rewritten. */
  function DatabaseUrl(env: Option<string>): (r: string)
    ensures r != "" && !StartsWith(r, LegacyPrefix)
    ensures env.None? || env.value == "" ==> r == DefaultUrl
    ensures env.Some? && env.value != "" ==> r == NormalizeScheme(env.value)
  {
    assert !StartsWith(DefaultUrl, LegacyPrefix) by {
      assert DefaultUrl[..|LegacyPrefix|][0] == 's';
    }
    NormalizeScheme(ConfiguredUrl(env))
  }

  // ----- Driver arguments -----

  /** The `connect_args` passed to the driver. */
  datatype ConnectArgs = NoArgs | SslMode(mode: string) | SameThreadCheck(check: bool)

  /**
   * PostgreSQL URLs get an SSL mode, "require" when the URL mentions the
   * hosting provider's domain and "prefer" otherwise; SQLite URLs turn the
   * same-thread check off; any other URL gets no arguments.
   */
  function ConnectArgsFor(url: string): (r: ConnectArgs)
    ensures StartsWith(url, "postgresql") ==>
      r == SslMode(if Contains(url, "render.com") then "require" else "prefer")
    ensures StartsWith(url, "sqlite") ==> r == SameThreadCheck(false)
    ensures r == NoArgs <==> !StartsWith(url, "postgresql") && !StartsWith(url, "sqlite")
  {
    assert StartsWith(url, "postgresql") ==> url[0] == 'p';
    var args := if StartsWith(url, "postgresql")
      then SslMode(if Contains(url, "render.com") then "require" else "prefer")
      else NoArgs;
    if StartsWith(url, "sqlite") then SameThreadCheck(false) else args
  }

  /** No occurrence of the provider's domain starts inside either PostgreSQL prefix. */
  lemma NoDomainInPrefix(p: string, rest: string, i: int)
    requires p == LegacyPrefix || p == PostgresPrefix
    requires 0 <= i < |p|
    ensures !OccursAt(p + rest, "render.com", i)
  {
    var s := p + rest;
    if i + 10 <= |s| {
      if i == 5 {
        assert s[i..i + 10][2] == p[7] == 's';
      } else {
        assert s[i..i + 10][0] == p[i] != 'r';
      }
    }
  }

  /** An occurrence in `rest` is an occurrence in `p + rest`, shifted by `|p|`. */
  lemma OccursAtShift(p: string, rest: string, t: string, j: int)
    requires 0 <= j
    ensures OccursAt(p + rest, t, j + |p|) == OccursAt(rest, t, j)
  {
    if j + |t| <= |rest| {
      var s := p + rest;
      var here, there := s[j + |p|..j + |p| + |t|], rest[j..j + |t|];
      forall k | 0 <= k < |t| ensures here[k] == there[k] {
        assert here[k] == s[j + |p| + k] && there[k] == rest[j + k];
      }
      assert here == there;
    }
  }

  /** Whether the provider's domain occurs is decided by the text after the prefix. */
  lemma DomainAfterPrefix(p: string, rest: string)
    requires p == LegacyPrefix || p == PostgresPrefix
    ensures Contains(p + rest, "render.com") <==> Contains(rest, "render.com")
  {
    var s, t := p + rest, "render.com";
    if Contains(s, t) {
      var i :| 0 <= i <= |s| - |t| && OccursAt(s, t, i);
      if i < |p| { NoDomainInPrefix(p, rest, i); }
      OccursAtShift(p, rest, t, i - |p|);
      assert OccursAt(rest, t, i - |p|);
    }
    if Contains(rest, t) {
      var j :| 0 <= j <= |rest| - |t| && OccursAt(rest, t, j);
      OccursAtShift(p, rest, t, j);
      assert OccursAt(s, t, j + |p|);
    }
  }

  /**
   * A legacy "postgres://" URL is given an SSL mode once rewritten (before the
   * rewrite it would get no arguments at all), and the mode is "require"
   * exactly when the original URL names the provider's domain.
   */
  lemma LegacyUrlGetsSslMode(url: string)
    requires StartsWith(url, LegacyPrefix)
    ensures ConnectArgsFor(url) == NoArgs
    ensures ConnectArgsFor(NormalizeScheme(url)) == SslMode(if Contains(url, "render.com") then "require" else "prefer")
  {
    var rest := url[|LegacyPrefix|..];
    assert url == LegacyPrefix + rest;
    assert url[0] == 'p';
    if |url| >= 10 { assert url[..10][8] == url[8] == ':'; }
    DomainAfterPrefix(LegacyPrefix, rest);
    DomainAfterPrefix(PostgresPrefix, rest);
    assert StartsWith(NormalizeScheme(url), "postgresql");
  }

  // ----- Opening the engine -----

  /** An engine: the URL it connects to and its driver arguments. */
  datatype Engine = Engine(url: string, connectArgs: ConnectArgs)

  /** The SQLite engine used when the primary database cannot be reached. */
  const FallbackEngine := Engine(FallbackUrl, SameThreadCheck(false))

  /** Connection attempt `k`, counted from 0, succeeds. */
  predicate Succeeds(outcomes: seq<bool>, k: int) {
    0 <= k < |outcomes| && outcomes[k]
  }

  /**
   * `get_engine`: up to `maxRetries` attempts, a sleep of `retry_interval`
   * seconds (2 by default, counted here and not timed) after every failed
   * attempt but the last. It returns the engine of the first successful
   * attempt, or nothing once `maxRetries` attempts have failed (at once,
   * with no attempt, when `maxRetries` is not positive).
   */
  method GetEngine(url: string, maxRetries: int, outcomes: seq<bool>) returns (engine: Option<Engine>, attempts: nat, sleeps: nat)
    ensures engine.Some? <==> exists k | 0 <= k < maxRetries :: Succeeds(outcomes, k)
    ensures engine.Some? ==>
      && 1 <= attempts <= maxRetries
      && Succeeds(outcomes, attempts - 1)
      && (forall k | 0 <= k < attempts - 1 :: !Succeeds(outcomes, k))
      && engine.value == Engine(url, ConnectArgsFor(url))
    ensures engine.None? ==> attempts == (if maxRetries < 0 then 0 else maxRetries)
    ensures sleeps == if attempts == 0 then 0 else attempts - 1
  {
    var retries := 0;
    attempts, sleeps := 0, 0;
    while retries < maxRetries
      invariant 0 <= retries && (retries == 0 || retries < maxRetries)
      invariant attempts == retries && sleeps == retries
      invariant forall k | 0 <= k < retries :: !Succeeds(outcomes, k)
      decreases maxRetries - retries
    {
      var connectArgs := ConnectArgsFor(url);
      attempts := attempts + 1;
      if Succeeds(outcomes, retries) {
        return Some(Engine(url, connectArgs)), attempts, sleeps;
      }
      retries := retries + 1;
      if retries < maxRetries {
        sleeps := sleeps + 1;
      } else {
        return None, attempts, sleeps;
      }
    }
    return None, attempts, sleeps;
  }

  /**
   * The engine the service runs on: the primary database when one of the
   * five attempts succeeds, and the fallback SQLite file otherwise. One
   * sleep separates consecutive attempts, so `sleeps` also numbers the
   * attempt that succeeded.
   */
  method CreateEngine(env: Option<string>, outcomes: seq<bool>) returns (engine: Engine, fellBack: bool, sleeps: nat)
    ensures fellBack <==> forall k | 0 <= k < MaxRetries :: !Succeeds(outcomes, k)
    ensures fellBack ==> engine == FallbackEngine && sleeps == MaxRetries - 1
    ensures !fellBack ==> engine == Engine(DatabaseUrl(env), ConnectArgsFor(DatabaseUrl(env)))
    ensures !fellBack ==> Succeeds(outcomes, sleeps) && forall k | 0 <= k < sleeps :: !Succeeds(outcomes, k)
  {
    var primary, attempts;
    primary, attempts, sleeps := GetEngine(DatabaseUrl(env), MaxRetries, outcomes);
    if primary.None? {
      engine, fellBack := FallbackEngine, true;
    } else {
      engine, fellBack := primary.value, false;
    }
  }
}
