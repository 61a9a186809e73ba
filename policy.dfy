/**
 * The blocking policy of the background script: domain normalisation,
 * the schedule window test, the blocked-site match and the decision the
 * navigation listener takes. The clock and the URL parser are inputs:
 * `day` is the weekday the clock reports (0 is Sunday), `now` its
 * time-of-day string, and `hostOf` stands for `new URL(url).hostname`,
 * which either throws (`None`) or yields a host name.
 */
module Policy {
  import opened SiteTypes
  import opened JsString

  /** The host-name part of the URL parser, left uninterpreted. */
  type HostParser = string -> Option<string>

  /** The settings the background script falls back on when the store holds none. */
  const DefaultSettings := Settings(
    [],
    [],
    CustomBlockPage("Site Blocked", "This site is currently blocked", "#f8f9fa", "#212529", None),
    Some(true))

  /** `settings || DEFAULT_SETTINGS` for the value read from the store. */
  function CurrentSettings(stored: Option<Settings>): (s: Settings)
    ensures stored.Some? ==> s == stored.value
    ensures stored.None? ==> s.blockedSites == [] && s.schedules == [] && Truthy(s.isEnabled)
  {
    match stored
    case Some(settings) => settings
    case None => DefaultSettings
  }

  // ---------------------------------------------------------------------
  // Domain normalisation
  // ---------------------------------------------------------------------

  /** The cleaning both branches of `extractDomain` apply, in the source's
      order: drop a leading "www.", then lower-case, then trim. */
  function CleanHost(s: string): (r: string)
    ensures IsTrimmed(r) && IsLowerAscii(r)
    ensures |r| <= |StripWww(s)|
  {
    var r := Trim(ToLower(StripWww(s)));
    TrimKeepsLower(ToLower(StripWww(s)));
    r
  }

  /** `extractDomain(url)`. A string without "://" is taken as a bare host;
      anything else goes through the URL parser, and a parse failure yields
      the empty string instead of an exception. */
  function ExtractDomain(url: string, hostOf: HostParser): (d: string)
    ensures IsTrimmed(d) && IsLowerAscii(d)
    ensures Contains(url, "://") && hostOf(url).None? ==> d == ""
  {
    if !Contains(url, "://") then CleanHost(url)
    else
      match hostOf(url)
      case None => ""
      case Some(host) => CleanHost(host)
  }

  /** A bare host never reaches the URL parser, so it can never fail, and it
      is cleaned exactly as written: "www." off, lower-cased, trimmed. */
  lemma BareHostIgnoresParser(url: string, hostOf: HostParser, other: HostParser)
    requires !Contains(url, "://")
    ensures ExtractDomain(url, hostOf) == ExtractDomain(url, other)
    ensures ExtractDomain(url, hostOf) == Trim(ToLower(StripWww(url)))
  {
  }

  /** A full URL contributes only its parsed host name, cleaned the same way;
      a parse failure gives "" and nothing else. */
  lemma UrlUsesParsedHost(url: string, hostOf: HostParser)
    requires Contains(url, "://")
    ensures hostOf(url).None? ==> ExtractDomain(url, hostOf) == ""
    ensures hostOf(url).Some? ==>
      ExtractDomain(url, hostOf) == Trim(ToLower(StripWww(hostOf(url).value)))
  {
  }

  /** Cleaning never introduces a pattern made of non-letters, such as "://". */
  lemma CleanHostContains(s: string, p: string)
    requires forall i :: 0 <= i < |p| ==> !('a' <= p[i] <= 'z')
    ensures Contains(CleanHost(s), p) ==> Contains(s, p)
  {
    if Contains(CleanHost(s), p) {
      TrimContains(ToLower(StripWww(s)), p);
      LowerContains(StripWww(s), p);
      StripWwwContains(s, p);
    }
  }

  /** Normalising a bare host a second time changes nothing exactly when the
      first result does not itself begin with "www.". So the normalisation is
      not idempotent: "www." is stripped once per call. */
  lemma ExtractDomainStableIff(url: string, hostOf: HostParser)
    requires !Contains(url, "://")
    ensures ExtractDomain(ExtractDomain(url, hostOf), hostOf) == ExtractDomain(url, hostOf)
        <==> !StartsWith(ExtractDomain(url, hostOf), "www.")
  {
    var d := ExtractDomain(url, hostOf);
    CleanHostContains(url, "://");
    if StartsWith(d, "www.") {
      BareWwwShrinks(d, hostOf);
    } else {
      BareCleanStable(d, hostOf);
    }
  }

  /** A bare host beginning with "www." loses at least those four characters. */
  lemma BareWwwShrinks(d: string, hostOf: HostParser)
    requires !Contains(d, "://") && StartsWith(d, "www.")
    ensures |ExtractDomain(d, hostOf)| <= |d| - 4
  {
  }

  /** A cleaned bare host without "www." in front is its own domain. */
  lemma BareCleanStable(d: string, hostOf: HostParser)
    requires !Contains(d, "://") && !StartsWith(d, "www.")
    requires IsTrimmed(d) && IsLowerAscii(d)
    ensures ExtractDomain(d, hostOf) == d
  {
    ToLowerKeepsLower(d);
    TrimKeepsTrimmed(d);
  }

  /** A string without a colon is a bare host. */
  lemma NoColonIsBare(s: string)
    requires ':' !in s
    ensures !Contains(s, "://")
  {
    if Contains(s, "://") {
      ContainsHead(s, "://");
    }
  }

  /** A colon-free, lower-case host without edge whitespace: such a host
      passes through `CleanHost` unchanged unless it begins with "www.". */
  predicate CleanBare(s: string) {
    ':' !in s && IsLowerAscii(s) && IsTrimmed(s)
  }

  lemma BareDomain(s: string, hostOf: HostParser)
    requires ':' !in s
    ensures ExtractDomain(s, hostOf) == Trim(ToLower(StripWww(s)))
  {
    NoColonIsBare(s);
  }

  lemma WwwPrefixClean(rest: string)
    requires CleanBare(rest)
    ensures CleanBare("www." + rest)
  {
    var s := "www." + rest;
    assert s[0] == 'w';
    assert s[|s| - 1] == if rest == [] then '.' else rest[|rest| - 1];
    assert forall i :: 4 <= i < |s| ==> s[i] == rest[i - 4];
  }

  lemma UpperWwwLowered(rest: string)
    requires IsLowerAscii(rest)
    ensures ToLower("WWW." + rest) == "www." + rest
  {
    var s := "WWW." + rest;
    forall i | 0 <= i < |s|
      ensures ToLower(s)[i] == ("www." + rest)[i]
    {
      if i >= 4 {
        assert s[i] == rest[i - 4];
      }
    }
  }

  /** Because "www." is stripped before lower-casing, an upper-case "WWW."
      survives: "WWW.x.com" normalises to "www.x.com". */
  lemma UpperWwwKept(rest: string, hostOf: HostParser)
    requires CleanBare(rest)
    ensures ExtractDomain("WWW." + rest, hostOf) == "www." + rest
  {
    var s := "WWW." + rest;
    assert ':' !in s by { assert forall i :: 4 <= i < |s| ==> s[i] == rest[i - 4]; }
    BareDomain(s, hostOf);
    assert StripWww(s) == s by { assert s[..4][0] == 'W'; }
    UpperWwwLowered(rest);
    WwwPrefixClean(rest);
    TrimKeepsTrimmed("www." + rest);
  }

  lemma {:induction false} TrimStartDrops(ws: string, t: string)
    requires forall i :: 0 <= i < |ws| ==> IsTrimmable(ws[i])
    requires t == [] || !IsTrimmable(t[0])
    ensures TrimStart(ws + t) == t
  {
    if ws != [] {
      assert (ws + t)[1..] == ws[1..] + t;
      TrimStartDrops(ws[1..], t);
    }
  }

  /** Leading whitespace is not ASCII and has no colon. */
  predicate IsIndent(ws: string) {
    forall i :: 0 <= i < |ws| ==> IsTrimmable(ws[i]) && !('A' <= ws[i] <= 'Z') && ws[i] != ':'
  }

  lemma IndentedLower(ws: string, t: string)
    requires IsIndent(ws) && IsLowerAscii(t)
    ensures ToLower(ws + t) == ws + t
  {
    ToLowerKeepsLower(ws + t);
  }

  /** Because "www." is stripped before trimming, an indented "www."
      survives: "  www.x.com" normalises to "www.x.com". */
  lemma IndentedWwwKept(ws: string, rest: string, hostOf: HostParser)
    requires ws != [] && IsIndent(ws)
    requires CleanBare(rest)
    ensures ExtractDomain(ws + ("www." + rest), hostOf) == "www." + rest
  {
    var t := "www." + rest;
    var s := ws + t;
    WwwPrefixClean(rest);
    assert ':' !in s;
    BareDomain(s, hostOf);
    assert StripWww(s) == s by { assert s[..4][0] == ws[0]; }
    IndentedLower(ws, t);
    TrimStartDrops(ws, t);
    TrimKeepsTrimmed(t);
  }

  /** Each call strips one "www." only: "www.www.x.com" normalises to
      "www.x.com", and that in turn to "x.com". */
  lemma DoubleWwwPeeled(rest: string, hostOf: HostParser)
    requires CleanBare(rest)
    ensures ExtractDomain("www." + ("www." + rest), hostOf) == "www." + rest
    ensures ExtractDomain("www." + rest, hostOf) == rest
  {
    WwwPeeledOnce(rest, hostOf);
    WwwPrefixClean(rest);
    WwwPeeledOnce("www." + rest, hostOf);
  }

  /** One "www." in front of a clean host is removed. */
  lemma WwwPeeledOnce(rest: string, hostOf: HostParser)
    requires CleanBare(rest)
    ensures ExtractDomain("www." + rest, hostOf) == rest
  {
    var s := "www." + rest;
    WwwPrefixClean(rest);
    BareDomain(s, hostOf);
    assert s[..4] == "www." && s[4..] == rest;
    ToLowerKeepsLower(rest);
    TrimKeepsTrimmed(rest);
  }

  // ---------------------------------------------------------------------
  // Schedule window
  // ---------------------------------------------------------------------

  /** The callback given to `schedules.some` in `isWithinSchedule`. */
  predicate ScheduleMatches(s: Schedule, day: int, now: string) {
    && Truthy(s.enabled)
    && day in s.days
    && !LexLess(now, s.startTime)
    && !LexLess(s.endTime, now)
  }

  /** `isWithinSchedule(schedules)` at weekday `day` and clock string `now`:
      some schedule is enabled, lists the day, and has its window around
      `now` under string comparison. */
  function IsWithinSchedule(schedules: seq<Schedule>, day: int, now: string): (r: bool)
    ensures r <==> exists i :: 0 <= i < |schedules| && ScheduleMatches(schedules[i], day, now)
  {
    if schedules == [] then false
    else ScheduleMatches(schedules[0], day, now) || IsWithinSchedule(schedules[1..], day, now)
  }

  /** A schedule whose end time sorts before its start time (a window across
      midnight) matches at no time of any day. */
  lemma InvertedWindowNeverMatches(s: Schedule, day: int, now: string)
    requires LexLess(s.endTime, s.startTime)
    ensures !ScheduleMatches(s, day, now)
  {
    if !LexLess(now, s.startTime) && !LexLess(s.endTime, now) {
      LexLessEqTransitive(s.startTime, now, s.endTime);
    }
  }

  /** A window that starts and ends at the same string holds at that
      string only: both comparisons at once pin `now` down. */
  lemma PointWindowMatchesOnlyThen(s: Schedule, day: int, now: string)
    requires s.startTime == s.endTime
    ensures ScheduleMatches(s, day, now) <==> Truthy(s.enabled) && day in s.days && now == s.startTime
  {
    LexLessIrreflexive(now);
    if now != s.startTime {
      LexLessConnected(now, s.startTime);
    }
  }

  /** Schedules combine by union: a window of either list is a window of both. */
  lemma {:induction false} WithinScheduleUnion(a: seq<Schedule>, b: seq<Schedule>, day: int, now: string)
    ensures IsWithinSchedule(a + b, day, now) <==> IsWithinSchedule(a, day, now) || IsWithinSchedule(b, day, now)
  {
    if a == [] {
      assert a + b == b;
    } else {
      assert (a + b)[0] == a[0];
      assert (a + b)[1..] == a[1..] + b;
      WithinScheduleUnion(a[1..], b, day, now);
    }
  }

  // ---------------------------------------------------------------------
  // Blocked-site match
  // ---------------------------------------------------------------------

  /** The target is the blocked domain itself or one of its subdomains. */
  predicate DomainMatches(target: string, site: string) {
    target == site || EndsWith(target, "." + site)
  }

  /** The callback given to `blockedSites.some` in `isBlockedSite`. */
  function AnySiteMatches(target: string, sites: seq<string>, hostOf: HostParser): (r: bool)
    ensures r <==> exists i :: 0 <= i < |sites| && DomainMatches(target, ExtractDomain(sites[i], hostOf))
  {
    if sites == [] then false
    else DomainMatches(target, ExtractDomain(sites[0], hostOf)) || AnySiteMatches(target, sites[1..], hostOf)
  }

  /** `isBlockedSite(url, blockedSites)`: a URL that normalises to "" is never
      blocked; otherwise it is blocked iff its domain is, or is a subdomain
      of, the domain of some listed site. */
  function IsBlockedSite(url: string, blockedSites: seq<string>, hostOf: HostParser): (r: bool)
    ensures ExtractDomain(url, hostOf) == "" ==> !r
    ensures r <==>
      && ExtractDomain(url, hostOf) != ""
      && exists i :: 0 <= i < |blockedSites| &&
           DomainMatches(ExtractDomain(url, hostOf), ExtractDomain(blockedSites[i], hostOf))
  {
    var target := ExtractDomain(url, hostOf);
    if target == "" then false else AnySiteMatches(target, blockedSites, hostOf)
  }

  /** Every subdomain of a domain matches it. */
  lemma SubdomainMatches(prefix: string, domain: string)
    ensures DomainMatches(prefix + "." + domain, domain)
  {
    assert (prefix + "." + domain)[|prefix|..] == "." + domain;
  }

  /** A domain is never matched by one of its own subdomains: blocking
      "sub.example.com" leaves "example.com" alone. */
  lemma ParentNotMatchedBySubdomain(prefix: string, domain: string)
    requires prefix != ""
    ensures !DomainMatches(domain, prefix + "." + domain)
  {
    assert |prefix + "." + domain| > |domain|;
  }

  /** A label glued to a domain without a dot is a different domain:
      blocking "example.com" leaves "notexample.com" alone. */
  lemma GluedPrefixNotMatched(prefix: string, domain: string)
    requires prefix != "" && prefix[|prefix| - 1] != '.'
    ensures !DomainMatches(prefix + domain, domain)
  {
    var t := prefix + domain;
    assert t[|prefix| - 1] == prefix[|prefix| - 1];
    assert t[|t| - |domain| - 1..] == t[|prefix| - 1..];
  }

  /** A site longer than the domain can match it neither way. */
  lemma LongerSiteNotMatched(target: string, site: string)
    requires |site| > |target|
    ensures !DomainMatches(target, site)
  {
  }

  /** What the URL parser's `hostname` looks like: no ASCII capital and no
      whitespace anywhere. */
  predicate IsHostName(h: string) {
    IsLowerAscii(h) && forall i :: 0 <= i < |h| ==> !IsTrimmable(h[i])
  }

  /** On a host name, cleaning only drops a leading "www.". */
  lemma CleanHostOfHostName(h: string)
    requires IsHostName(h)
    ensures CleanHost(h) == StripWww(h)
  {
    var t := StripWww(h);
    assert forall i :: 0 <= i < |t| ==> t[i] == h[|h| - |t| + i];
    ToLowerKeepsLower(t);
    TrimKeepsTrimmed(t);
  }

  /** "." + site can end "www." + d only by ending d, or by being "." + d. */
  lemma DotSuffixFits(d: string, site: string)
    ensures EndsWith("www." + d, "." + site) ==> |site| <= |d|
  {
    var t := "www." + d;
    assert forall k :: 0 <= k < 3 ==> t[k] == 'w';
    if EndsWith(t, "." + site) {
      assert t[|t| - |site| - 1] == '.';
    }
  }

  /** Matching the host "www." + d against a site agrees with matching d,
      except when the site's domain is the host itself. */
  lemma WwwHostMatch(d: string, site: string)
    requires site != "www." + d
    ensures DomainMatches("www." + d, site) <==> DomainMatches(d, site)
  {
    var t := "www." + d;
    DotSuffixFits(d, site);
    assert t[3..] == "." + d;
    if EndsWith(t, "." + site) && |site| < |d| {
      assert t[|t| - |site| - 1..] == d[|d| - |site| - 1..];
    }
    if EndsWith(t, "." + site) && |site| == |d| {
      assert "." + site == "." + d;
      assert site == ("." + site)[1..] == ("." + d)[1..] == d;
    }
    if EndsWith(d, "." + site) {
      assert t[|t| - |site| - 1..] == d[|d| - |site| - 1..];
    }
  }

  /** The sites match the host exactly when they match its domain, provided
      no listed site's domain is a host that begins with "www.". */
  lemma HostMatchesIffDomainMatches(host: string, sites: seq<string>, hostOf: HostParser)
    requires IsHostName(host)
    requires StartsWith(host, "www.") ==>
      forall i :: 0 <= i < |sites| ==> ExtractDomain(sites[i], hostOf) != host
    ensures AnySiteMatches(host, sites, hostOf) <==> AnySiteMatches(CleanHost(host), sites, hostOf)
  {
    CleanHostOfHostName(host);
    if StartsWith(host, "www.") {
      var d := host[4..];
      assert host == "www." + d;
      forall i | 0 <= i < |sites|
        ensures DomainMatches(host, ExtractDomain(sites[i], hostOf)) <==> DomainMatches(d, ExtractDomain(sites[i], hostOf))
      {
        WwwHostMatch(d, ExtractDomain(sites[i], hostOf));
      }
    }
  }

  /** A listed site that normalises to "" (such as "www.") blocks every
      domain that ends in a dot, since "." + "" is just ".". */
  lemma EmptySiteMatchesTrailingDot(url: string, site: string, hostOf: HostParser)
    requires ExtractDomain(site, hostOf) == ""
    requires ExtractDomain(url, hostOf) != "" && EndsWith(ExtractDomain(url, hostOf), ".")
    ensures IsBlockedSite(url, [site], hostOf)
  {
    assert "." + ExtractDomain(site, hostOf) == ".";
  }

  lemma WwwAloneIsEmpty(hostOf: HostParser)
    ensures ExtractDomain("www.", hostOf) == ""
  {
    NoColonIsBare("www.");
    assert "www."[..4] == "www.";
    assert StripWww("www.") == [];
    assert ToLower([]) == [];
  }

  // ---------------------------------------------------------------------
  // The navigation listener
  // ---------------------------------------------------------------------

  /** Whether the `onBeforeNavigate` listener sends the tab to the block page,
      following its early returns: other frames, the block page itself and a
      disabled blocker are let through; then the site must match and the
      clock lie in a schedule, unless there are no schedules at all. */
  function ShouldRedirect(
    frameId: int, url: string, blockPage: string, stored: Option<Settings>,
    day: int, now: string, hostOf: HostParser): (redirect: bool)
    ensures redirect <==>
      && frameId == 0
      && url != blockPage
      && Truthy(CurrentSettings(stored).isEnabled)
      && IsBlockedSite(url, CurrentSettings(stored).blockedSites, hostOf)
      && (CurrentSettings(stored).schedules == [] ||
          IsWithinSchedule(CurrentSettings(stored).schedules, day, now))
  {
    if frameId != 0 then false
    else if url == blockPage then false
    else
      var settings := CurrentSettings(stored);
      if !Truthy(settings.isEnabled) then false
      else
        IsBlockedSite(url, settings.blockedSites, hostOf) &&
        (|settings.schedules| == 0 || IsWithinSchedule(settings.schedules, day, now))
  }

  /** With nothing in the store, the defaults block no navigation. */
  lemma EmptyStoreBlocksNothing(frameId: int, url: string, blockPage: string, day: int, now: string, hostOf: HostParser)
    ensures !ShouldRedirect(frameId, url, blockPage, None, day, now, hostOf)
  {
  }

  /** End to end: when the URL parser reports the host "www." + d for a
      listed clean domain d, with blocking on and no schedules, the main-frame
      navigation is redirected. So "https://www.facebook.com/feed" is sent to
      the block page when "facebook.com" is listed. */
  lemma ParsedWwwHostRedirected(
    url: string, d: string, hostOf: HostParser, custom: CustomBlockPage,
    blockPage: string, day: int, now: string)
    requires Contains(url, "://") && hostOf(url) == Some("www." + d)
    requires CleanBare(d) && d != "" && !StartsWith(d, "www.")
    requires url != blockPage
    ensures ExtractDomain(url, hostOf) == d
    ensures ShouldRedirect(0, url, blockPage, Some(Settings([d], [], custom, Some(true))), day, now, hostOf)
  {
    var h := "www." + d;
    assert h[..4] == "www." && h[4..] == d;
    ToLowerKeepsLower(d);
    TrimKeepsTrimmed(d);
    NoColonIsBare(d);
    assert ExtractDomain(d, hostOf) == d;
  }
}
