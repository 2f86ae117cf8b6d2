/**
 * The robots.txt gate of crawler/src/clients/robots.rs: a per-domain cache of raw robots.txt
 * bodies, fail-open on fetch problems, and a line scan that only knows `User-agent: *` and
 * `Disallow:` lines. The scan is not the matching of RFC 9309 (section 2.2.2): a `Disallow:`
 * path is looked for anywhere in the whole URL, and any `Disallow: /...` line denies every URL.
 */
module Robots {
  import opened Basics
  import opened Text
  import opened Collaborators

  // ---------------------------------------------------------------- lines

  function StripCR(l: string): (r: string)
    ensures forall c | c in r :: c in l
  {
    if |l| > 0 && l[|l| - 1] == '\r' then l[..|l| - 1] else l
  }

  /**
   * Rust's `str::lines`: split at "\n", drop one '\r' before each "\n", and no empty
   * line after a final "\n".
   */
  function Lines(s: string): (r: seq<string>)
    ensures forall i | 0 <= i < |r| :: '\n' !in r[i]
    decreases |s|
  {
    if s == [] then []
    else
      var line := Before(s, '\n');
      if |line| == |s| then [s]
      else [StripCR(line)] + Lines(s[|line| + 1..])
  }

  /** The lines put back together with a line feed between each two. */
  function JoinLines(ls: seq<string>): string {
    if ls == [] then [] else if |ls| == 1 then ls[0] else ls[0] + "\n" + JoinLines(ls[1..])
  }

  /** The line feed a text ends with, if any: `lines()` yields no empty line after it. */
  function FinalNewline(s: string): string {
    if s != [] && s[|s| - 1] == '\n' then "\n" else ""
  }

  /**
   * Splitting is lossless apart from the carriage returns: for a text without '\r', the
   * lines joined by line feeds, plus a final line feed when the text had one, give the text back.
   */
  lemma {:induction false} LinesRoundTrip(s: string)
    requires '\r' !in s
    ensures JoinLines(Lines(s)) + FinalNewline(s) == s
    decreases |s|
  {
    if s != [] {
      var line := Before(s, '\n');
      if |line| == |s| {
        assert line == s;
      } else {
        var rest := s[|line| + 1..];
        assert s == line + "\n" + rest;
        assert line == s[..|line|];
        assert StripCR(line) == line by {
          if |line| > 0 {
            assert line[|line| - 1] == s[|line| - 1];
          }
        }
        assert '\r' !in rest by {
          forall k | 0 <= k < |rest| ensures rest[k] != '\r' {
            assert rest[k] == s[|line| + 1 + k];
          }
        }
        LinesRoundTrip(rest);
        if rest == [] {
          assert Lines(s) == [line];
        } else {
          assert Lines(rest) != [];
          assert FinalNewline(s) == FinalNewline(rest);
        }
      }
    }
  }

  /** A line that ended in "\r\n" loses its '\r': only the last '\r' of each line is dropped. */
  lemma CRLFLineStripped(line: string, rest: string)
    requires '\n' !in line
    ensures Lines(line + "\r\n" + rest) == [line] + Lines(rest)
  {
    var s := line + "\r\n" + rest;
    BeforeOfPlain(line + "\r", '\n', "\n" + rest);
    assert s == (line + "\r") + ("\n" + rest);
    assert s[|line| + 2..] == rest;
    assert (line + "\r")[..|line|] == line;
  }

  /** `Before` stops at the first `c`, so a prefix without `c` is read whole. */
  lemma {:induction false} BeforeOfPlain(a: string, c: char, b: string)
    requires c !in a && b != [] && b[0] == c
    ensures Before(a + b, c) == a
    decreases |a|
  {
    if a == [] {
      assert a + b == b;
    } else {
      assert (a + b)[1..] == a[1..] + b;
      BeforeOfPlain(a[1..], c, b);
    }
  }

  // ---------------------------------------------------------------- rules

  predicate IsUserAgentAll(l: string) {
    StartsWith(l, "User-agent: *")
  }

  predicate IsDisallow(l: string) {
    StartsWith(l, "Disallow:")
  }

  /** `line.split(":").collect::<Vec<&str>>()[1].trim()`: the text between the first and second ':'. */
  function Path(l: string): string {
    Trim(Before(After(l, ':'), ':'))
  }

  /** A line that sets the `disallow_all` flag once a `User-agent: *` line has been seen. */
  predicate SetsDisallowAll(l: string) {
    StartsWith(l, "Disallow: /") || (IsDisallow(l) && Path(l) == "/")
  }

  lemma SetsDisallowAllIsDisallow(l: string)
    requires SetsDisallowAll(l)
    ensures IsDisallow(l)
  {
    if StartsWith(l, "Disallow: /") {
      assert l[..9] == l[..11][..9];
    }
  }

  /** A `Disallow:` line that makes `url` disallowed once a `User-agent: *` line has been seen. */
  predicate DeniesAt(l: string, url: string) {
    IsDisallow(l) && (SetsDisallowAll(l) || Contains(url, Path(l)))
  }

  /**
   * The decision of `parse_robots_txt`, stated without the scan: `url` is denied exactly when
   * some line at or after a `User-agent: *` line denies it.
   */
  predicate Allows(lines: seq<string>, url: string) {
    forall i | 0 <= i < |lines| && UserAgentSeen(lines, i + 1) :: !DeniesAt(lines[i], url)
  }

  /** The scan's `user_agent_found` flag after the first `n` lines. */
  predicate UserAgentSeen(lines: seq<string>, n: nat)
    requires n <= |lines|
  {
    n > 0 && (IsUserAgentAll(lines[n - 1]) || UserAgentSeen(lines, n - 1))
  }

  /** The flag is set exactly when one of the first `n` lines is `User-agent: *` (one direction). */
  lemma {:induction false} UserAgentSeenFrom(lines: seq<string>, j: nat, n: nat)
    requires j < n <= |lines| && IsUserAgentAll(lines[j])
    ensures UserAgentSeen(lines, n)
  {
    if j < n - 1 {
      UserAgentSeenFrom(lines, j, n - 1);
    }
  }

  /** The other direction: a set flag was set by some `User-agent: *` line. */
  lemma {:induction false} UserAgentSeenWitness(lines: seq<string>, n: nat) returns (j: nat)
    requires n <= |lines| && UserAgentSeen(lines, n)
    ensures j < n && IsUserAgentAll(lines[j])
  {
    if IsUserAgentAll(lines[n - 1]) {
      j := n - 1;
    } else {
      j := UserAgentSeenWitness(lines, n - 1);
    }
  }

  /** Line `k` sets the scan's `disallow_all` flag. */
  predicate DisallowsAllAt(lines: seq<string>, k: nat)
    requires k < |lines|
  {
    UserAgentSeen(lines, k + 1) && SetsDisallowAll(lines[k])
  }

  /** Line `k` denies `url` by its path alone, so the scan returns at once. */
  predicate DeniesEarly(lines: seq<string>, k: nat, url: string)
    requires k < |lines|
  {
    UserAgentSeen(lines, k + 1) && DeniesAt(lines[k], url) && !SetsDisallowAll(lines[k])
  }

  /** The scan's `disallow_all` flag after the first `n` lines. */
  predicate DisallowAllSet(lines: seq<string>, n: nat)
    requires n <= |lines|
  {
    n > 0 && (DisallowsAllAt(lines, n - 1) || DisallowAllSet(lines, n - 1))
  }

  /** The scan has not returned early within the first `n` lines. */
  predicate NoEarlyDenial(lines: seq<string>, n: nat, url: string)
    requires n <= |lines|
  {
    n == 0 || (!DeniesEarly(lines, n - 1, url) && NoEarlyDenial(lines, n - 1, url))
  }

  lemma {:induction false} DisallowAllSetWitness(lines: seq<string>, n: nat) returns (k: nat)
    requires n <= |lines| && DisallowAllSet(lines, n)
    ensures k < n && DisallowsAllAt(lines, k)
  {
    if DisallowsAllAt(lines, n - 1) {
      k := n - 1;
    } else {
      k := DisallowAllSetWitness(lines, n - 1);
    }
  }

  lemma NoEarlyDenialLast(lines: seq<string>, k: nat, url: string)
    requires k < |lines| && NoEarlyDenial(lines, k + 1, url)
    ensures !DeniesEarly(lines, k, url)
  {
  }

  lemma {:induction false} NoEarlyDenialAt(lines: seq<string>, n: nat, url: string, k: nat)
    requires k < n <= |lines| && NoEarlyDenial(lines, n, url)
    ensures !DeniesEarly(lines, k, url)
    decreases n
  {
    if k + 1 < n {
      NoEarlyDenialAt(lines, n - 1, url, k);
    } else {
      NoEarlyDenialLast(lines, k, url);
    }
  }

  /**
   * When the scan runs to the end, its answer is the negation of the `disallow_all` flag:
   * the two flags after the whole file decide `Allows`.
   */
  lemma ScanEndDecides(lines: seq<string>, url: string)
    requires NoEarlyDenial(lines, |lines|, url)
    ensures Allows(lines, url) == !DisallowAllSet(lines, |lines|)
  {
    if DisallowAllSet(lines, |lines|) {
      var k := DisallowAllSetWitness(lines, |lines|);
      SetsDisallowAllIsDisallow(lines[k]);
      assert DeniesAt(lines[k], url);
    }
    if !Allows(lines, url) {
      var k :| 0 <= k < |lines| && UserAgentSeen(lines, k + 1) && DeniesAt(lines[k], url);
      NoEarlyDenialAt(lines, |lines|, url, k);
      assert DisallowsAllAt(lines, k);
      DisallowAllSetFrom(lines, k, |lines|);
    }
  }

  lemma {:induction false} DisallowAllSetFrom(lines: seq<string>, k: nat, n: nat)
    requires k < n <= |lines| && DisallowsAllAt(lines, k)
    ensures DisallowAllSet(lines, n)
  {
    if k < n - 1 {
      DisallowAllSetFrom(lines, k, n - 1);
    }
  }

  // ---------------------------------------------------------------- properties of the rules

  /** Without a `User-agent: *` line every URL is allowed. */
  lemma NoUserAgentAllowsAll(lines: seq<string>, url: string)
    requires forall i | 0 <= i < |lines| :: !IsUserAgentAll(lines[i])
    ensures Allows(lines, url)
  {
    if !Allows(lines, url) {
      var i :| 0 <= i < |lines| && UserAgentSeen(lines, i + 1) && DeniesAt(lines[i], url);
      var j := UserAgentSeenWitness(lines, i + 1);
    }
  }

  /** Lines before the first `User-agent: *` line never affect the decision. */
  lemma LinesBeforeUserAgentIgnored(pre: seq<string>, post: seq<string>, url: string)
    requires forall i | 0 <= i < |pre| :: !IsUserAgentAll(pre[i])
    ensures Allows(pre + post, url) == Allows(post, url)
  {
    var all := pre + post;
    if !Allows(all, url) {
      var i :| 0 <= i < |all| && UserAgentSeen(all, i + 1) && DeniesAt(all[i], url);
      var j := UserAgentSeenWitness(all, i + 1);
      assert all[j] == post[j - |pre|];
      UserAgentSeenFrom(post, j - |pre|, i - |pre| + 1);
      assert post[i - |pre|] == all[i];
    }
    if !Allows(post, url) {
      var i :| 0 <= i < |post| && UserAgentSeen(post, i + 1) && DeniesAt(post[i], url);
      var j := UserAgentSeenWitness(post, i + 1);
      assert all[j + |pre|] == post[j];
      UserAgentSeenFrom(all, j + |pre|, i + |pre| + 1);
      assert all[i + |pre|] == post[i];
    }
  }

  /**
   * The user-agent flag is sticky: a line that is neither `User-agent: *` nor `Disallow:`,
   * such as a `User-agent:` line for another agent, changes nothing wherever it stands.
   */
  lemma OtherLinesIgnored(a: seq<string>, l: string, b: seq<string>, url: string)
    requires !IsUserAgentAll(l) && !IsDisallow(l)
    ensures Allows(a + [l] + b, url) == Allows(a + b, url)
  {
    if !Allows(a + [l] + b, url) {
      OtherLineRemoved(a, l, b, url);
    }
    if !Allows(a + b, url) {
      OtherLineInserted(a, l, b, url);
    }
  }

  /** A denial survives removing a line that is neither `User-agent: *` nor `Disallow:`. */
  lemma OtherLineRemoved(a: seq<string>, l: string, b: seq<string>, url: string)
    requires !IsUserAgentAll(l) && !IsDisallow(l) && !Allows(a + [l] + b, url)
    ensures !Allows(a + b, url)
  {
    var long, short := a + [l] + b, a + b;
    var n := |a|;
    var i :| 0 <= i < |long| && UserAgentSeen(long, i + 1) && DeniesAt(long[i], url);
    var j := UserAgentSeenWitness(long, i + 1);
    assert i != n && j != n;
    var i', j' := if i < n then i else i - 1, if j < n then j else j - 1;
    assert short[i'] == long[i] && short[j'] == long[j];
    UserAgentSeenFrom(short, j', i' + 1);
  }

  /** A denial survives inserting a line that is neither `User-agent: *` nor `Disallow:`. */
  lemma OtherLineInserted(a: seq<string>, l: string, b: seq<string>, url: string)
    requires !IsUserAgentAll(l) && !IsDisallow(l) && !Allows(a + b, url)
    ensures !Allows(a + [l] + b, url)
  {
    var long, short := a + [l] + b, a + b;
    var n := |a|;
    var i :| 0 <= i < |short| && UserAgentSeen(short, i + 1) && DeniesAt(short[i], url);
    var j := UserAgentSeenWitness(short, i + 1);
    var i', j' := if i < n then i else i + 1, if j < n then j else j + 1;
    assert long[i'] == short[i] && long[j'] == short[j];
    UserAgentSeenFrom(long, j', i' + 1);
  }

  /** After `User-agent: *`, a line starting with `Disallow: /` denies every URL, not just its path. */
  lemma DisallowSlashDeniesEverything(lines: seq<string>, j: nat, i: nat, url: string)
    requires j <= i < |lines| && IsUserAgentAll(lines[j]) && StartsWith(lines[i], "Disallow: /")
    ensures !Allows(lines, url)
  {
    UserAgentSeenFrom(lines, j, i + 1);
    SetsDisallowAllIsDisallow(lines[i]);
  }

  /** After `User-agent: *`, a `Disallow:` line whose path occurs anywhere in the URL denies it. */
  lemma DisallowSubstringDenies(lines: seq<string>, j: nat, i: nat, url: string)
    requires j <= i < |lines| && IsUserAgentAll(lines[j]) && IsDisallow(lines[i])
    requires Contains(url, Path(lines[i]))
    ensures !Allows(lines, url)
  {
    UserAgentSeenFrom(lines, j, i + 1);
  }

  /** After `User-agent: *`, an empty `Disallow:` line denies every URL. */
  lemma EmptyDisallowDeniesEverything(lines: seq<string>, j: nat, i: nat, url: string)
    requires j <= i < |lines| && IsUserAgentAll(lines[j]) && lines[i] == "Disallow:"
    ensures !Allows(lines, url)
  {
    UserAgentSeenFrom(lines, j, i + 1);
    assert IsDisallow(lines[i]);
    assert After(lines[i], ':') == "";
    assert Path(lines[i]) == "";
    ContainsEmpty(url);
  }

  /**
   * A `Disallow: /private` rule denies a page outside /private: the whole site is disallowed.
   */
  lemma PrivateRuleDeniesPublicPage()
    ensures !Allows(["User-agent: *", "Disallow: /private"], "https://example.com/public/x")
  {
    var lines := ["User-agent: *", "Disallow: /private"];
    assert IsUserAgentAll(lines[0]);
    DisallowSlashDeniesEverything(lines, 0, 1, "https://example.com/public/x");
  }

  // ---------------------------------------------------------------- the gate

  /**
   * The decision and the new cache of `is_allowed`. An unparsable URL or one without a
   * domain is denied; a cached body decides on its own; otherwise a fetched robots.txt with a
   * success status is cached under the domain, and every other fetch outcome allows.
   */
  function Decide(cache: map<string, string>, url: string, w: World): (r: (bool, map<string, string>))
    ensures forall d | d in cache :: d in r.1 && r.1[d] == cache[d]
    ensures forall d | d in r.1 && d !in cache :: w.domainOf(url) == Some(d)
  {
    match w.domainOf(url)
    case None => (false, cache)
    case Some(d) =>
      if d in cache then (Allows(Lines(cache[d]), url), cache)
      else
        match w.robotsReply(url)
        case JoinFailed => (false, cache)
        case TransportFailed => (true, cache)
        case Received(status, body) =>
          if IsSuccess(status) then
            match body
            case None => (true, cache)
            case Some(b) => (Allows(Lines(b), url), cache[d := b])
          else (true, cache)
  }

  /**
   * A robots.txt fetched with a success status and a readable body decides the URL, and the
   * raw body is then cached under the URL's domain.
   */
  lemma SuccessCachesBody(cache: map<string, string>, url: string, w: World, d: string, status: nat, b: string)
    requires w.domainOf(url) == Some(d) && d !in cache
    requires w.robotsReply(url) == Received(status, Some(b)) && IsSuccess(status)
    ensures Decide(cache, url, w) == (Allows(Lines(b), url), cache[d := b])
  {
  }

  /** A robots.txt location that cannot be built denies without caching. */
  lemma JoinFailedDenies(cache: map<string, string>, url: string, w: World)
    requires w.domainOf(url).Some? && w.domainOf(url).value !in cache
    requires w.robotsReply(url).JoinFailed?
    ensures Decide(cache, url, w) == (false, cache)
  {
  }

  /** Malformed input is the only reason to deny without rules: no fetch, no cache change. */
  lemma MalformedUrlDenied(cache: map<string, string>, url: string, w: World)
    requires w.domainOf(url).None?
    ensures Decide(cache, url, w) == (false, cache)
  {
  }

  /**
   * Fail-open: for an uncached domain, a transport failure, an unreadable body or a
   * non-success status allows the URL and leaves the cache as it was.
   */
  lemma FetchProblemsAllow(cache: map<string, string>, url: string, w: World)
    requires w.domainOf(url).Some? && w.domainOf(url).value !in cache
    requires || w.robotsReply(url).TransportFailed?
             || (w.robotsReply(url).Received? &&
                 (!IsSuccess(w.robotsReply(url).status) || w.robotsReply(url).body.None?))
    ensures Decide(cache, url, w) == (true, cache)
  {
  }

  /** A cache hit decides from the cached body alone and changes nothing. */
  lemma CacheHitDecidesFromBody(cache: map<string, string>, url: string, w: World)
    requires w.domainOf(url).Some? && w.domainOf(url).value in cache
    ensures Decide(cache, url, w) == (Allows(Lines(cache[w.domainOf(url).value]), url), cache)
  {
  }

  /**
   * Asking again gives the same answer and changes nothing more: in particular the decision
   * returned when a body is cached is the one a later cache hit returns.
   */
  lemma DecideIdempotent(cache: map<string, string>, url: string, w: World)
    ensures Decide(Decide(cache, url, w).1, url, w) == (Decide(cache, url, w).0, Decide(cache, url, w).1)
  {
  }

  class RobotsTxtClient {
    var cache: map<string, string>

    constructor ()
      ensures cache == map[]
    {
      cache := map[];
    }

    /** `parse_robots_txt`: the flag-keeping scan with its early return, proved against `Allows`. */
    method ParseRobotsTxt(robotsTxt: string, url: string) returns (allowed: bool)
      ensures allowed == Allows(Lines(robotsTxt), url)
    {
      var lines := Lines(robotsTxt);
      var userAgentFound := false;
      var disallowAll := false;
      for i := 0 to |lines|
        invariant userAgentFound == UserAgentSeen(lines, i)
        invariant disallowAll == DisallowAllSet(lines, i)
        invariant NoEarlyDenial(lines, i, url)
      {
        var line := lines[i];
        if IsUserAgentAll(line) {
          userAgentFound := true;
        }
        if userAgentFound && StartsWith(line, "Disallow: /") {
          disallowAll := true;
        }
        if userAgentFound && IsDisallow(line) {
          var path := Path(line);
          if path == "/" {
            disallowAll := true;
          } else if Contains(url, path) {
            assert UserAgentSeen(lines, i + 1) && DeniesAt(lines[i], url);
            return false;
          }
        }
      }
      ScanEndDecides(lines, url);
      return !disallowAll;
    }

    /** `is_allowed`: the decision and the cache update of `Decide`. */
    method IsAllowed(url: string, w: World) returns (allowed: bool)
      modifies this
      ensures (allowed, cache) == Decide(old(cache), url, w)
    {
      var domain := w.domainOf(url);
      if domain.None? {
        return false;
      }
      var d := domain.value;
      if d in cache {
        allowed := ParseRobotsTxt(cache[d], url);
        return;
      }
      match w.robotsReply(url)
      case JoinFailed =>
        return false;
      case TransportFailed =>
        return true;
      case Received(status, body) =>
        if IsSuccess(status) {
          if body.None? {
            return true;
          }
          allowed := ParseRobotsTxt(body.value, url);
          cache := cache[d := body.value];
        } else {
          return true;
        }
    }
  }
}
