/**
 * The rule rebuild of the background script, `updateBlockingRules`, and
 * the dynamic rule set of the browser's request filter that it programs.
 * The rule set is a field of `DynamicRuleStore`; the rebuild first removes
 * every installed rule and then adds one redirect rule per blocked site.
 */
module Reconciler {
  import opened SiteTypes
  import opened JsString
  import opened Policy

  datatype ResourceType = MainFrame | SubFrame | OtherResource

  datatype RuleAction = Redirect(url: string) | Block | Allow

  /** One dynamic rule: its id, priority, action and its condition (a URL
      filter and the resource types it applies to). */
  datatype Rule = Rule(
    id: int,
    priority: int,
    action: RuleAction,
    urlFilter: string,
    resourceTypes: seq<ResourceType>)

  /** `existingRules.map(rule => rule.id)` */
  function RuleIds(rules: seq<Rule>): (ids: seq<int>)
    ensures |ids| == |rules|
    ensures forall i :: 0 <= i < |rules| ==> ids[i] == rules[i].id
  {
    seq(|rules|, i requires 0 <= i < |rules| => rules[i].id)
  }

  predicate DistinctIds(rules: seq<Rule>) {
    forall i, j :: 0 <= i < j < |rules| ==> rules[i].id != rules[j].id
  }

  /** The rules left after `removeRuleIds`: those whose id is not listed,
      in their old order. Ids that name no rule are ignored. */
  function WithoutIds(rules: seq<Rule>, ids: seq<int>): (kept: seq<Rule>)
    ensures forall r :: r in kept <==> r in rules && r.id !in ids
    ensures |kept| <= |rules|
    ensures (forall r :: r in rules ==> r.id in ids) ==> kept == []
  {
    if rules == [] then []
    else if rules[0].id in ids then WithoutIds(rules[1..], ids)
    else [rules[0]] + WithoutIds(rules[1..], ids)
  }

  /** Removal keeps distinct ids distinct. */
  lemma {:induction false} WithoutIdsKeepsDistinct(rules: seq<Rule>, ids: seq<int>)
    requires DistinctIds(rules)
    ensures DistinctIds(WithoutIds(rules, ids))
  {
    if rules != [] {
      var rest := WithoutIds(rules[1..], ids);
      WithoutIdsKeepsDistinct(rules[1..], ids);
      if rules[0].id !in ids {
        HeadIdUnique(rules);
        ConsDistinct(rules[0], rest);
      }
    }
  }

  lemma HeadIdUnique(rules: seq<Rule>)
    requires rules != [] && DistinctIds(rules)
    ensures forall r :: r in rules[1..] ==> r.id != rules[0].id
  {
    forall r | r in rules[1..]
      ensures r.id != rules[0].id
    {
      var j :| 0 <= j < |rules[1..]| && rules[1..][j] == r;
      assert rules[j + 1] == r;
    }
  }

  lemma ConsDistinct(x: Rule, rest: seq<Rule>)
    requires DistinctIds(rest)
    requires forall r :: r in rest ==> r.id != x.id
    ensures DistinctIds([x] + rest)
  {
    var kept := [x] + rest;
    forall i, j | 0 <= i < j < |kept|
      ensures kept[i].id != kept[j].id
    {
      if i == 0 {
        assert kept[j] in rest;
      } else {
        assert kept[i] == rest[i - 1] && kept[j] == rest[j - 1];
      }
    }
  }

  /** Removing the ids of all installed rules leaves no rule behind. */
  lemma RemovingAllIdsClears(rules: seq<Rule>)
    ensures WithoutIds(rules, RuleIds(rules)) == []
  {
    forall r | r in rules
      ensures r.id in RuleIds(rules)
    {
      var i :| 0 <= i < |rules| && rules[i] == r;
      assert RuleIds(rules)[i] == r.id;
    }
  }

  /** What the request filter demands of an `addRules` list: ids of at
      least 1, distinct among themselves and from every rule kept. */
  predicate CanAdd(kept: seq<Rule>, added: seq<Rule>) {
    && DistinctIds(added)
    && (forall j :: 0 <= j < |added| ==> added[j].id >= 1)
    && (forall i, j :: 0 <= i < |kept| && 0 <= j < |added| ==> kept[i].id != added[j].id)
  }

  /** The redirect rule built for the site at position `index`. */
  function SiteRule(index: nat, site: string, blockPage: string, hostOf: HostParser): Rule {
    Rule(index + 1, 1, Redirect(blockPage), "||" + ExtractDomain(site, hostOf) + "^", [MainFrame])
  }

  /** `blockedSites.map((site, index) => ...)` */
  function BuildRules(sites: seq<string>, blockPage: string, hostOf: HostParser): (rules: seq<Rule>)
    ensures |rules| == |sites|
    ensures forall i :: 0 <= i < |rules| ==> rules[i] == SiteRule(i, sites[i], blockPage, hostOf)
  {
    seq(|sites|, i requires 0 <= i < |sites| => SiteRule(i, sites[i], blockPage, hostOf))
  }

  /** Whether the rebuild gets past its two early returns. */
  predicate InstallsRules(settings: Settings, day: int, now: string) {
    && Truthy(settings.isEnabled)
    && |settings.blockedSites| > 0
    && (|settings.schedules| == 0 || IsWithinSchedule(settings.schedules, day, now))
  }

  /** The rules the rebuild installs. None when blocking is off or unset, when
      no site is listed, or when schedules exist and none holds now; otherwise
      one main-frame redirect rule of priority 1 per listed site, in list
      order, the i-th with id i + 1 and the filter "||" + domain + "^". */
  function PlannedRules(
    stored: Option<Settings>, day: int, now: string, blockPage: string, hostOf: HostParser): (rules: seq<Rule>)
    ensures rules == [] <==>
      || !Truthy(CurrentSettings(stored).isEnabled)
      || CurrentSettings(stored).blockedSites == []
      || (CurrentSettings(stored).schedules != []
          && !IsWithinSchedule(CurrentSettings(stored).schedules, day, now))
    ensures rules != [] ==> |rules| == |CurrentSettings(stored).blockedSites|
    ensures forall i :: 0 <= i < |rules| ==>
      && rules[i].id == i + 1
      && rules[i].priority == 1
      && rules[i].action == Redirect(blockPage)
      && rules[i].urlFilter == "||" + ExtractDomain(CurrentSettings(stored).blockedSites[i], hostOf) + "^"
      && rules[i].resourceTypes == [MainFrame]
  {
    var settings := CurrentSettings(stored);
    if InstallsRules(settings, day, now) then BuildRules(settings.blockedSites, blockPage, hostOf) else []
  }

  /** The ids 1 to n. */
  function IdRange(n: nat): (ids: set<int>)
    ensures forall k :: k in ids <==> 1 <= k <= n
  {
    if n == 0 then {} else IdRange(n - 1) + {n}
  }

  /** A list whose i-th rule has id i + 1 has distinct ids, exactly 1 to n. */
  lemma NumberedIds(rules: seq<Rule>)
    requires forall i :: 0 <= i < |rules| ==> rules[i].id == i + 1
    ensures DistinctIds(rules)
    ensures (set r | r in rules :: r.id) == IdRange(|rules|)
  {
    forall k | k in IdRange(|rules|)
      ensures k in (set r | r in rules :: r.id)
    {
      assert rules[k - 1] in rules;
    }
    forall r | r in rules
      ensures r.id in IdRange(|rules|)
    {
      var i :| 0 <= i < |rules| && rules[i] == r;
    }
  }

  lemma BuiltIdsAreOneToN(sites: seq<string>, blockPage: string, hostOf: HostParser)
    ensures DistinctIds(BuildRules(sites, blockPage, hostOf))
    ensures (set r | r in BuildRules(sites, blockPage, hostOf) :: r.id) == IdRange(|sites|)
  {
    NumberedIds(BuildRules(sites, blockPage, hostOf));
  }

  /** The installed ids are distinct and are exactly 1 to n. */
  lemma PlannedIdsAreOneToN(stored: Option<Settings>, day: int, now: string, blockPage: string, hostOf: HostParser)
    ensures DistinctIds(PlannedRules(stored, day, now, blockPage, hostOf))
    ensures (set r | r in PlannedRules(stored, day, now, blockPage, hostOf) :: r.id)
        == IdRange(|PlannedRules(stored, day, now, blockPage, hostOf)|)
  {
    BuiltIdsAreOneToN(CurrentSettings(stored).blockedSites, blockPage, hostOf);
  }

  /** The planned list is always acceptable to the request filter once the
      old rules are gone. */
  lemma PlannedRulesCanBeAdded(stored: Option<Settings>, day: int, now: string, blockPage: string, hostOf: HostParser)
    ensures CanAdd([], PlannedRules(stored, day, now, blockPage, hostOf))
  {
    PlannedIdsAreOneToN(stored, day, now, blockPage, hostOf);
  }

  /** The host-anchored reading of a filter "||d^": it covers the domain d
      and every subdomain of d. */
  predicate FilterCovers(filter: string, target: string) {
    && |filter| >= 3
    && filter[..2] == "||"
    && filter[|filter| - 1] == '^'
    && DomainMatches(target, filter[2..|filter| - 1])
  }

  lemma FilterOfDomain(d: string, target: string)
    ensures FilterCovers("||" + d + "^", target) <==> DomainMatches(target, d)
  {
    var f := "||" + d + "^";
    assert f[..2] == "||";
    assert f[2..|f| - 1] == d;
  }

  /** Some rule's filter covers the given host. */
  predicate RulesCover(rules: seq<Rule>, host: string) {
    exists i :: 0 <= i < |rules| && FilterCovers(rules[i].urlFilter, host)
  }

  /** The rebuilt rules and the navigation listener agree on the normalised
      domain: for a main-frame navigation to a URL with a non-empty domain,
      other than the block page, the listener redirects exactly when some
      installed rule's filter covers that domain. */
  lemma RedirectIffSomeRuleCovers(
    url: string, blockPage: string, stored: Option<Settings>, day: int, now: string, hostOf: HostParser)
    requires url != blockPage && ExtractDomain(url, hostOf) != ""
    ensures ShouldRedirect(0, url, blockPage, stored, day, now, hostOf)
        <==> RulesCover(PlannedRules(stored, day, now, blockPage, hostOf), ExtractDomain(url, hostOf))
  {
    var s := CurrentSettings(stored);
    var target := ExtractDomain(url, hostOf);
    if InstallsRules(s, day, now) {
      assert PlannedRules(stored, day, now, blockPage, hostOf) == BuildRules(s.blockedSites, blockPage, hostOf);
      BuiltRulesCover(s.blockedSites, blockPage, hostOf, target);
      assert ShouldRedirect(0, url, blockPage, stored, day, now, hostOf) == AnySiteMatches(target, s.blockedSites, hostOf);
    } else {
      assert PlannedRules(stored, day, now, blockPage, hostOf) == [];
    }
  }

  /** The same agreement on the host the browser matches the filters
      against, for a parsed host whose domain is not empty. It needs one
      hypothesis: when the host begins with "www.", no listed site normalises
      to the host itself (see `WwwSiteCoversHostOnly`). */
  lemma RedirectIffRulesCoverHost(
    url: string, host: string, blockPage: string, stored: Option<Settings>, day: int, now: string,
    hostOf: HostParser)
    requires Contains(url, "://") && hostOf(url) == Some(host) && IsHostName(host)
    requires url != blockPage && CleanHost(host) != ""
    requires StartsWith(host, "www.") ==>
      forall i :: 0 <= i < |CurrentSettings(stored).blockedSites| ==>
        ExtractDomain(CurrentSettings(stored).blockedSites[i], hostOf) != host
    ensures ShouldRedirect(0, url, blockPage, stored, day, now, hostOf)
        <==> RulesCover(PlannedRules(stored, day, now, blockPage, hostOf), host)
  {
    var s := CurrentSettings(stored);
    assert ExtractDomain(url, hostOf) == CleanHost(host);
    if InstallsRules(s, day, now) {
      assert PlannedRules(stored, day, now, blockPage, hostOf) == BuildRules(s.blockedSites, blockPage, hostOf);
      BuiltRulesCover(s.blockedSites, blockPage, hostOf, host);
      HostMatchesIffDomainMatches(host, s.blockedSites, hostOf);
      assert ShouldRedirect(0, url, blockPage, stored, day, now, hostOf)
          == AnySiteMatches(CleanHost(host), s.blockedSites, hostOf);
    } else {
      assert PlannedRules(stored, day, now, blockPage, hostOf) == [];
    }
  }

  /** Where the two paths part: for the host "www." + d and the listed site
      "www.www." + d, whose domain is "www." + d, the installed filter
      covers the host, yet the listener compares d with "www." + d and lets
      the navigation through. */
  lemma WwwSiteCoversHostOnly(
    url: string, d: string, stored: Option<Settings>, blockPage: string, day: int, now: string,
    hostOf: HostParser)
    requires Contains(url, "://") && hostOf(url) == Some("www." + d)
    requires CleanBare(d) && url != blockPage
    requires stored.Some? && stored.value.isEnabled == Some(true) && stored.value.schedules == []
    requires stored.value.blockedSites == ["www." + ("www." + d)]
    ensures RulesCover(PlannedRules(stored, day, now, blockPage, hostOf), "www." + d)
    ensures !ShouldRedirect(0, url, blockPage, stored, day, now, hostOf)
  {
    var site := "www." + ("www." + d);
    DoubleWwwPeeled(d, hostOf);
    WwwPrefixClean(d);
    NoColonIsBare("www." + d);
    assert ExtractDomain(url, hostOf) == d;
    OneSiteCoversItsDomain(stored, day, now, blockPage, hostOf);
    LongerSiteNotMatched(d, ExtractDomain(site, hostOf));
  }

  /** With blocking on, no schedule and one listed site, the one planned
      rule covers that site's own domain. */
  lemma OneSiteCoversItsDomain(
    stored: Option<Settings>, day: int, now: string, blockPage: string, hostOf: HostParser)
    requires stored.Some? && stored.value.isEnabled == Some(true) && stored.value.schedules == []
    requires |stored.value.blockedSites| == 1
    ensures RulesCover(PlannedRules(stored, day, now, blockPage, hostOf),
                       ExtractDomain(stored.value.blockedSites[0], hostOf))
  {
    var domain := ExtractDomain(stored.value.blockedSites[0], hostOf);
    var rules := PlannedRules(stored, day, now, blockPage, hostOf);
    assert rules[0].urlFilter == "||" + domain + "^";
    FilterOfDomain(domain, domain);
  }

  /** Some rule built for the sites covers the target exactly when the
      target matches one of the sites. */
  lemma BuiltRulesCover(sites: seq<string>, blockPage: string, hostOf: HostParser, target: string)
    ensures RulesCover(BuildRules(sites, blockPage, hostOf), target) <==> AnySiteMatches(target, sites, hostOf)
  {
    var rules := BuildRules(sites, blockPage, hostOf);
    forall i | 0 <= i < |rules|
      ensures FilterCovers(rules[i].urlFilter, target) <==> DomainMatches(target, ExtractDomain(sites[i], hostOf))
    {
      FilterOfDomain(ExtractDomain(sites[i], hostOf), target);
    }
  }

  /** The request filter's dynamic rule set. Besides its id checks the
      filter enforces a rule quota and checks each rule on its own (for
      instance that its URL filter is ASCII); these two are left abstract
      as `quota` and `admits`. */
  class DynamicRuleStore {
    var rules: seq<Rule>
    const quota: nat
    const admits: Rule -> bool

    /** The filter keeps rule ids unique and positive, and stays within quota. */
    ghost predicate Valid()
      reads this
    {
      && DistinctIds(rules)
      && (forall i :: 0 <= i < |rules| ==> rules[i].id >= 1)
      && |rules| <= quota
    }

    constructor (quota: nat, admits: Rule -> bool)
      ensures Valid() && rules == []
      ensures this.quota == quota && this.admits == admits
    {
      rules := [];
      this.quota := quota;
      this.admits := admits;
    }

    /** Whether the filter takes `added` on top of `kept`: the ids are
        acceptable, the total is within quota, and each rule is admitted. */
    predicate Accepts(kept: seq<Rule>, added: seq<Rule>) {
      && CanAdd(kept, added)
      && |kept| + |added| <= quota
      && forall r :: r in added ==> admits(r)
    }

    /** `getDynamicRules()` */
    method GetDynamicRules() returns (installed: seq<Rule>)
      ensures installed == rules
    {
      installed := rules;
    }

    /** `updateDynamicRules({removeRuleIds, addRules})`: removes, then adds;
        a call the filter does not accept is refused and nothing changes. */
    method UpdateDynamicRules(removeRuleIds: seq<int>, addRules: seq<Rule>) returns (ok: bool)
      requires Valid()
      modifies this
      ensures Valid()
      ensures ok == Accepts(WithoutIds(old(rules), removeRuleIds), addRules)
      ensures rules == if ok then WithoutIds(old(rules), removeRuleIds) + addRules else old(rules)
    {
      var kept := WithoutIds(rules, removeRuleIds);
      ok := Accepts(kept, addRules);
      if ok {
        WithoutIdsKeepsDistinct(rules, removeRuleIds);
        forall r | r in kept
          ensures r.id >= 1
        {
          assert r in rules;
        }
        rules := kept + addRules;
      }
    }

    /** The first step of the rebuild: the ids of every installed rule are
        read and removed in one call, which the filter always accepts. */
    method RemoveAllRules() returns (removed: seq<int>)
      requires Valid()
      modifies this
      ensures Valid()
      ensures removed == RuleIds(old(rules))
      ensures rules == []
    {
      var existing := GetDynamicRules();
      removed := RuleIds(existing);
      RemovingAllIdsClears(existing);
      if |removed| > 0 {
        var ok := UpdateDynamicRules(removed, []);
        assert ok;
      }
    }

    /** `updateBlockingRules()` with the stored settings, the clock and the
        block page's address given as inputs. The removal of every installed
        rule always goes through. The planned rules are then installed when
        the filter accepts them; when it refuses them (quota, or a rule it
        does not admit), the store is left empty. */
    method UpdateBlockingRules(
      stored: Option<Settings>, day: int, now: string, blockPage: string, hostOf: HostParser)
      returns (removed: seq<int>, planned: seq<Rule>)
      requires Valid()
      modifies this
      ensures Valid()
      ensures removed == RuleIds(old(rules))
      ensures planned == PlannedRules(stored, day, now, blockPage, hostOf)
      ensures rules == if Accepts([], planned) then planned else []
      ensures rules == planned || rules == []
    {
      var settings := CurrentSettings(stored);
      removed := RemoveAllRules();
      planned := [];
      if !Truthy(settings.isEnabled) || |settings.blockedSites| == 0 {
        assert !InstallsRules(settings, day, now);
        return;
      }
      if |settings.schedules| > 0 && !IsWithinSchedule(settings.schedules, day, now) {
        assert !InstallsRules(settings, day, now);
        return;
      }
      assert InstallsRules(settings, day, now);
      var newRules := BuildRules(settings.blockedSites, blockPage, hostOf);
      assert newRules == PlannedRules(stored, day, now, blockPage, hostOf);
      if |newRules| > 0 {
        var ok := UpdateDynamicRules([], newRules);
      }
      planned := newRules;
    }
  }
}
