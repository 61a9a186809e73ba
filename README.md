# Site blocker: blocking policy engine in Dafny

This project models the core of a browser extension that blocks sites
during time windows. The model covers three parts:

- **The background script's policy.** Domain normalisation
  (`extractDomain`), the schedule window test (`isWithinSchedule`), the
  blocked-site match (`isBlockedSite`) and the decision of the
  `onBeforeNavigate` listener.
- **The rule rebuild (`updateBlockingRules`).** It reads the settings,
  removes every dynamic rule the browser's request filter holds, and
  installs one redirect rule per blocked site. The filter's dynamic rule
  set is the `rules` field of the class `Reconciler.DynamicRuleStore`. The
  rebuild is a method on that class. Its removal step always succeeds.
  Afterwards the store holds the planned rules when the filter accepts
  them, and is empty when it refuses them.
- **The popup's two list editors.** The schedule editor adds, removes and
  updates schedules and toggles weekdays. The blocked-site editor adds a
  normalised site, refusing empty and repeated entries, and removes one.

The inputs of the background script are parameters of the model:

- the value in the settings store (`stored: Option<Settings>`, where `None`
  means nothing is stored);
- the weekday and time-of-day string the clock reports (`day`, `now`);
- the block page's address (`blockPage`);
- the host-name part of the URL parser (`hostOf`, which returns `None` where
  `new URL` throws).

Modules:

| file | module | contents |
|---|---|---|
| site_types.dfy | SiteTypes | the records `Schedule`, `CustomBlockPage`, `Settings`; optional properties as `Option` |
| js_string.dfy | JsString | `trim`, ASCII `toLowerCase`, `includes`, `startsWith`/`endsWith`, the `/^www\./` replacement, string `<` |
| js_array.dfy | JsArray | `splice(start, 1)` on a copy, done in place on an array |
| policy.dfy | Policy | `extractDomain`, `isWithinSchedule`, `isBlockedSite`, the navigation decision |
| reconciler.dfy | Reconciler | the rule plan, the dynamic rule store, `updateBlockingRules` |
| schedules.dfy | Schedules | the schedule editor's handlers |
| blocked_sites.dfy | BlockedSites | the blocked-site editor's handlers |

### Behaviour of the code worth knowing

- **Normalisation is not idempotent.** `extractDomain` drops a lower-case
  `www.` before it lower-cases and trims. So `"WWW.x.com"` and
  `"  www.x.com"` both normalise to `"www.x.com"`, and so does
  `"www.www.x.com"`. A second call then gives `"x.com"`. See
  `Policy.ExtractDomainStableIff`, `Policy.UpperWwwKept`,
  `Policy.IndentedWwwKept` and `Policy.DoubleWwwPeeled`.
- **Blocked sites are plain strings.** An entry has no enabled flag of its
  own. The only skip condition that concerns the sites is an empty list
  (`!blockedSites.length`). The rebuild also skips installation when
  blocking is off, or when schedules exist and none holds
  (`Reconciler.InstallsRules`).
- **Schedule times are "HH:MM".** The editor stores `"HH:MM"` times
  (`"09:00"`, `"17:00"`), while the clock string has seconds. Under string
  comparison `"17:00:xx"` sorts after `"17:00"`, so the default window ends
  at 17:00:00 (`Schedules.DefaultWindowMissesLastMinute`).
- **An empty site domain matches trailing dots.** A listed site that
  normalises to `""`, such as `"www."`, matches every target domain that
  ends in a dot (`Policy.EmptySiteMatchesTrailingDot`). Its rule filter is
  `"||^"`.
- **The rules and the listener can disagree on a "www." host.** The
  browser matches the filter `"||d^"` against the host as parsed. The
  listener first strips one "www." from the host. Take the host
  `"www.x.com"` and the listed site `"www.www.x.com"`, whose domain is
  `"www.x.com"`. The rule covers the host, but the listener compares
  `"x.com"` with `"www.x.com"` and lets the navigation through
  (`Reconciler.WwwSiteCoversHostOnly`). For the same settings and clock
  reading, and under the host-anchored reading of the filter, the planned
  rules and the listener agree outside this case
  (`Reconciler.RedirectIffRulesCoverHost`).
- **The installed rules can differ from the planned ones.** The lemmas
  above are about the planned rules. The rules the filter actually holds
  differ in three cases:
  - when the filter refuses the add, the store is left empty
    (`Reconciler.DynamicRuleStore.UpdateBlockingRules`), while the listener
    still redirects;
  - between two rebuilds, 30 seconds apart, the rules are the ones planned
    from the settings and clock of the last rebuild;
  - a site typed with a path or a port, such as `"example.com/"`, gives the
    rule text `"||example.com/^"`. The listener compares the host
    `"example.com"` with `"example.com/"` and never matches, while the
    browser's own matcher reads that text its own way.
- **Rebuilds are not serialised.** Nothing in the code serialises or
  coalesces concurrent rebuilds. The model runs one rebuild at a time.

## Model

| member | source | states |
|---|---|---|
| Policy.CurrentSettings | src/background/index.ts:3-13 | a stored record is used as it is; with nothing stored, there are no sites and no schedules, and blocking is on |
| Policy.ExtractDomain | src/background/index.ts:16-29 | the domain never has edge whitespace or an ASCII capital; a URL that the parser rejects yields "" instead of an error |
| Policy.CleanHost | src/background/index.ts:20-24 | the cleaned host has no edge whitespace and no ASCII capital, and is no longer than the host without its "www." |
| Policy.BareHostIgnoresParser | src/background/index.ts:19-21 | input without "://" never reaches the URL parser; its domain is the input with one leading "www." removed, then lower-cased, then trimmed |
| Policy.UrlUsesParsedHost | src/background/index.ts:23-28 | input with "://" contributes only its parsed host, cleaned the same way; a parse failure gives "" |
| Policy.CleanHostContains | src/background/index.ts:20 | cleaning never creates a pattern made of non-letters such as "://" |
| Policy.ExtractDomainStableIff | src/background/index.ts:19-21 | normalising a bare host's domain again changes it exactly when it begins with "www.", so normalisation is not idempotent |
| Policy.NoColonIsBare | src/background/index.ts:19 | a string without ':' takes the bare-host branch |
| Policy.UpperWwwKept | src/background/index.ts:20 | "WWW." + clean host normalises to "www." + host, because stripping precedes lower-casing |
| Policy.IndentedWwwKept | src/background/index.ts:20 | whitespace + "www." + clean host normalises to "www." + host, because stripping precedes trimming |
| Policy.WwwPeeledOnce | src/background/index.ts:20 | one leading "www." in front of a clean host is removed |
| Policy.DoubleWwwPeeled | src/background/index.ts:20 | "www.www." + host loses one "www." per call |
| Policy.WwwAloneIsEmpty | src/background/index.ts:20 | the site "www." normalises to "" |
| Policy.ScheduleMatches | src/background/index.ts:37-44 | the callback of `schedules.some`: the schedule is enabled, lists the day, and start <= now <= end as strings |
| Policy.IsWithinSchedule | src/background/index.ts:32-46 | true iff some schedule is enabled (a missing flag counts as off), lists the day, and has start <= now <= end as strings; false for no schedules |
| Policy.InvertedWindowNeverMatches | src/background/index.ts:44 | a schedule whose end sorts before its start matches at no time on no day |
| Policy.PointWindowMatchesOnlyThen | src/background/index.ts:44 | a schedule whose start equals its end holds exactly at that clock string, on its days, when enabled |
| Policy.WithinScheduleUnion | src/background/index.ts:37-45 | the window test of a concatenation is the disjunction of the two tests |
| Policy.DomainMatches | src/background/index.ts:55 | the target equals the site's domain or ends with "." followed by it |
| Policy.AnySiteMatches | src/background/index.ts:53-56 | true iff the target equals some site's domain or ends with "." followed by it |
| Policy.IsBlockedSite | src/background/index.ts:49-57 | a URL whose domain is "" is never blocked; otherwise blocked iff its domain matches some listed site's domain |
| Policy.SubdomainMatches | src/background/index.ts:55 | every subdomain p + "." + d matches site d |
| Policy.ParentNotMatchedBySubdomain | src/background/index.ts:55 | a domain does not match a site that is one of its own subdomains |
| Policy.GluedPrefixNotMatched | src/background/index.ts:55 | a label glued to a domain without a dot does not match it (blocking example.com leaves notexample.com) |
| Policy.CleanHostOfHostName | src/background/index.ts:24 | on a parsed host name (lower case, no whitespace) cleaning only removes a leading "www." |
| Policy.WwwHostMatch | src/background/index.ts:55 | matching the host "www." + d against a site agrees with matching d, unless the site is "www." + d itself |
| Policy.HostMatchesIffDomainMatches | src/background/index.ts:50-56 | the sites match a parsed host iff they match its cleaned domain, given that for a "www." host no site's domain is the host itself |
| Policy.EmptySiteMatchesTrailingDot | src/background/index.ts:53-56 | a site whose domain is "" blocks every target domain that ends in "." |
| Policy.ShouldRedirect | src/background/index.ts:112-130 | redirect iff main frame, not the block page, blocking truthy, the site is blocked, and there are no schedules or one is in force |
| Policy.EmptyStoreBlocksNothing | src/background/index.ts:119-125 | with nothing stored, the defaults redirect no navigation |
| Policy.ParsedWwwHostRedirected | src/background/index.ts:112-130 | a URL whose parsed host is "www." + d is redirected when d is listed, blocking is on and there are no schedules |
| JsString.Trim | src/background/index.ts:20 | the result has no trimmable character at either end and is no longer than the input |
| JsString.TrimStartDropsTrimmable | src/background/index.ts:20 | the characters dropped in front are all whitespace or line terminators |
| JsString.TrimEndDropsTrimmable | src/background/index.ts:20 | the characters dropped at the end are all whitespace or line terminators |
| JsString.TrimIsSlice | src/background/index.ts:20 | the trimmed string is the slice of the input that starts after the leading whitespace |
| JsString.TrimDropsOnlyTrimmable | src/background/index.ts:20 | only trimmable characters lie outside that slice, before it or after it |
| JsString.ToLower | src/background/index.ts:20 | same length, no ASCII capital left |
| JsString.ToLowerMapsCapitals | src/background/index.ts:20 | each ASCII capital becomes the letter 32 code points above it; every other character is kept |
| JsString.Contains | src/background/index.ts:19 | `includes`: the pattern starts at the first position or occurs in the rest |
| JsString.EndsWith | src/background/index.ts:55 | `endsWith`: the pattern is the last \|p\| characters |
| JsString.LexLess | src/background/index.ts:44 | string `<`: the first differing character decides, and a proper prefix sorts first |
| JsString.StripWww | src/background/index.ts:20 | a leading lower-case "www." is dropped, anything else is kept |
| JsString.TrimContains | src/background/index.ts:20 | whatever occurs in the trimmed string occurs in the original |
| JsString.LexLessIrreflexive | src/background/index.ts:44 | no string is `<` itself |
| JsString.ProperPrefixLess | src/background/index.ts:44 | under string `<` a proper prefix sorts first |
| JsString.LexLessTransitive | src/background/index.ts:44 | string `<` is transitive |
| JsString.LexLessConnected | src/background/index.ts:44 | of two different strings one is `<` the other |
| JsString.LexLessEqTransitive | src/background/index.ts:44 | string `<=` is transitive |
| Reconciler.RuleIds | src/background/index.ts:66 | one id per rule, in order: the i-th id is the i-th rule's id |
| Reconciler.WithoutIds | src/background/index.ts:67-71 | the kept rules are exactly those whose id is not listed; listing every id leaves nothing |
| Reconciler.WithoutIdsKeepsDistinct | src/background/index.ts:67-71 | removal keeps distinct ids distinct |
| Reconciler.RemovingAllIdsClears | src/background/index.ts:65-71 | removing the ids of all installed rules clears the rule set |
| Reconciler.InstallsRules | src/background/index.ts:73-81 | the rebuild gets past both early returns: blocking truthy, some site listed, and no schedules or one in force |
| Reconciler.SiteRule | src/background/index.ts:87-98 | the rule for the site at position i: id i + 1, priority 1, a redirect to the block page, filter "\|\|" + domain + "^", main frame only |
| Reconciler.PlannedRules | src/background/index.ts:73-99 | no rules when blocking is off or unset, no site is listed, or schedules exist and none holds; otherwise one rule per site in order, the i-th with id i + 1, priority 1, a redirect to the block page, filter "\|\|" + domain + "^", main frame only |
| Reconciler.BuildRules | src/background/index.ts:84-99 | one rule per site, in the same order: the i-th is `SiteRule(i, site i)` |
| Reconciler.NumberedIds | src/background/index.ts:88 | rules numbered i + 1 have distinct ids, exactly 1 to n |
| Reconciler.BuiltIdsAreOneToN | src/background/index.ts:84-88 | the mapped rules have distinct ids, and their ids are exactly 1 to n |
| Reconciler.PlannedIdsAreOneToN | src/background/index.ts:73-99 | the installed ids are distinct and exactly 1 to n |
| Reconciler.PlannedRulesCanBeAdded | src/background/index.ts:101-105 | once the old rules are gone, the planned ids pass the filter's id checks: at least 1, distinct, no clash |
| Reconciler.FilterOfDomain | src/background/index.ts:95 | the filter "\|\|d^" covers a target iff the target is d or a subdomain of d |
| Reconciler.RedirectIffSomeRuleCovers | src/background/index.ts:84-129 | for the same settings and clock, and a non-empty domain other than the block page, the listener redirects a main-frame navigation iff some planned rule's filter covers its normalised domain |
| Reconciler.RedirectIffRulesCoverHost | src/background/index.ts:84-129 | for the same settings and clock, and a parsed host with a non-empty domain, the listener redirects iff some planned rule's filter covers the host itself, provided that for a "www." host no site's domain is the host |
| Reconciler.WwwSiteCoversHostOnly | src/background/index.ts:20-24 | for the host "www." + d and the one listed site "www.www." + d the planned rule covers the host, yet the listener does not redirect |
| Reconciler.BuiltRulesCover | src/background/index.ts:84-99 | some rule built for the sites covers a target iff the target matches one of the sites |
| Reconciler.DynamicRuleStore.GetDynamicRules | src/background/index.ts:65 | returns the installed rules |
| Reconciler.DynamicRuleStore.UpdateDynamicRules | src/background/index.ts:68-70 | removes the listed ids and then appends the added rules when the filter accepts the call: ids at least 1, distinct, no clash with a kept rule, within quota, each rule admitted; otherwise nothing changes; ids stay unique |
| Reconciler.DynamicRuleStore.RemoveAllRules | src/background/index.ts:64-71 | returns the ids of all installed rules and leaves the store empty; the removal is always accepted |
| Reconciler.DynamicRuleStore.UpdateBlockingRules | src/background/index.ts:60-106 | removes the ids of all old rules; afterwards the store holds the planned rules when the filter accepts them and is empty otherwise |
| JsArray.SpliceStart | src/popup/components/Schedules.tsx:24 | where `splice` starts: a negative start counts from the end and stops at 0, a start past the end is the end |
| JsArray.SpliceOne | src/popup/components/Schedules.tsx:24 | removes the element at the normalised start (negative counts from the end); the others keep their order; a start at or past the end changes nothing |
| JsArray.SpliceOneAtIndex | src/popup/components/Schedules.tsx:22-26 | at a valid index the result is the list without that element, and the multiset loses exactly that element |
| JsArray.CopyAndSpliceOne | src/popup/components/Schedules.tsx:23-24 | shifting a copied array left over the removed slot yields the same list |
| Schedules.AddSchedule | src/popup/components/Schedules.tsx:12-20 | one schedule (Mon-Fri, 09:00-17:00, enabled) is appended; the earlier schedules stay unchanged |
| Schedules.AddScheduleWithin | src/popup/components/Schedules.tsx:12-20 | after an add, a window is in force iff one was before or the new weekday window holds |
| Schedules.DefaultWindow | src/popup/components/Schedules.tsx:13-18 | the new schedule holds on days 1-5 for "09:00" <= now <= "17:00" |
| Schedules.DefaultWindowMissesLastMinute | src/popup/components/Schedules.tsx:15-16 | the new schedule does not hold at any "17:00:ss" clock reading |
| Schedules.RemoveSchedule | src/popup/components/Schedules.tsx:22-26 | the result is the splice of the list; at a valid index, the list minus that element with the others in order |
| Schedules.Merge | src/popup/components/Schedules.tsx:30 | each field the update names wins, every other field keeps its value |
| Schedules.MergeLaws | src/popup/components/Schedules.tsx:30 | an empty update changes nothing; applying an update twice is applying it once |
| Schedules.ScheduleChange | src/popup/components/Schedules.tsx:28-32 | same length; the element at the index is the merge; every other element is unchanged |
| Schedules.Without | src/popup/components/Schedules.tsx:37 | every occurrence of the day goes, no other day's membership changes, and a list without the day is unchanged |
| Schedules.WithoutCounts | src/popup/components/Schedules.tsx:37 | the day's count drops to zero and every other day keeps its count |
| Schedules.WithoutConcat | src/popup/components/Schedules.tsx:37 | filtering keeps the order: the filter of a concatenation is the concatenation of the filters |
| Schedules.WithoutSingle | src/popup/components/Schedules.tsx:37 | a one-day list is kept iff its day is not the one filtered out |
| Schedules.WithoutAppended | src/popup/components/Schedules.tsx:36-38 | filtering out a day just appended is filtering the list before the append |
| Schedules.ToggleDay | src/popup/components/Schedules.tsx:36-38 | a present day disappears entirely; an absent day is appended at the end; no other day's membership changes |
| Schedules.ToggleTwice | src/popup/components/Schedules.tsx:36-38 | toggling twice restores the day's membership, and restores the exact list when the day was absent |
| Schedules.DayToggle | src/popup/components/Schedules.tsx:34-40 | only that schedule's days change, to the toggled list; every other schedule and field is unchanged |
| BlockedSites.Normalise | src/popup/components/BlockedSites.tsx:12 | the stored text has no edge whitespace and no ASCII capital |
| BlockedSites.NormaliseKeepsInner | src/popup/components/BlockedSites.tsx:12 | the stored text comes from the part of the input between its leading and trailing whitespace; only trimmable characters lie outside it |
| BlockedSites.NormaliseLowersEachChar | src/popup/components/BlockedSites.tsx:12 | each stored character is the ASCII lower case of the input character at the same place in that part |
| BlockedSites.NormaliseIdempotent | src/popup/components/BlockedSites.tsx:12 | normalising twice equals normalising once |
| BlockedSites.AddSite | src/popup/components/BlockedSites.tsx:11-17 | a non-empty, unlisted normalised entry is appended and the input cleared; otherwise list and input are unchanged |
| BlockedSites.AddSiteAppends | src/popup/components/BlockedSites.tsx:14-15 | a successful add grows the list by one at the end, keeps the old prefix and clears the input |
| BlockedSites.AddSiteKeepsNoDuplicates | src/popup/components/BlockedSites.tsx:13-14 | a list without duplicates stays so |
| BlockedSites.AddSiteKeepsEntriesClean | src/popup/components/BlockedSites.tsx:12-14 | a list of non-empty, trimmed, lower-case entries stays so |
| BlockedSites.AddSiteTwice | src/popup/components/BlockedSites.tsx:13 | re-submitting the same text after an add leaves the list unchanged |
| BlockedSites.AddSiteIgnoresCaseAndBlanks | src/popup/components/BlockedSites.tsx:12-13 | adding the text or its normalised form has the same effect on the list |
| BlockedSites.RemoveSite | src/popup/components/BlockedSites.tsx:19-23 | the result is the splice of the list; at a valid index, the list minus that element with the others in order |
| BlockedSites.RemoveSiteKeepsNoDuplicates | src/popup/components/BlockedSites.tsx:19-23 | removing from a duplicate-free list keeps it so, and the removed site is gone |

## Left out

- The browser APIs (`chrome.storage.sync`, `chrome.tabs.update`, `chrome.runtime.getURL`). They are foreign calls. The stored settings, the block page address and the redirect decision are inputs and outputs of the model.
- The install listener (src/background/index.ts:133-139). It writes the default settings when the store is empty, then rebuilds. The write is a storage call, and the rebuild is `UpdateBlockingRules`.
- The message listener (src/background/index.ts:141-157). `GET_SETTINGS` only replies with the stored record or the defaults, which is `CurrentSettings`, and does not rebuild. `UPDATE_SETTINGS` stores the new record, rebuilds, then replies. The storage calls and replies are foreign.
- The `console.error` call when the URL parser throws (src/background/index.ts:26). It is output only. The model keeps the result, "".
- The 30-second timer (src/background/index.ts:109) and all concurrency. Rebuilds run one at a time, each in a single step. The interleaving of two asynchronous rebuilds is not modelled.
- The clock. `new Date().getDay()` and `toLocaleTimeString('en-US', { hour12: false })` are the parameters `day` and `now`. Their formats are not modelled.
- The URL parser. The hostname of `new URL(url)` is the parameter `hostOf`. Its internals are not modelled, and neither are its own lower-casing and punycode handling.
- JsString.ToLower, and with it Policy.ExtractDomain and BlockedSites.Normalise, lowers ASCII letters only, because full Unicode case mapping is out of reach. JavaScript also lowers other capitals, such as `"Ü"`, and can change the length of the string (`"İ"` becomes two code points). So `BlockedSites.AddSiteIgnoresCaseAndBlanks` and the editor's duplicate check cover ASCII case only.
- JsString.LexLess follows code points. JavaScript compares UTF-16 code units, and the two orders differ only above U+FFFF.
- Reconciler.FilterOfDomain gives a host-anchored reading of the filter "||d^". The browser's real URL-filter matcher is not modelled.
- Reconciler.DynamicRuleStore.UpdateBlockingRules does not say which rule lists the browser refuses. The filter's rule quota and its checks of single rules (such as an ASCII-only URL filter) are the abstract fields `quota` and `admits`. So the contract only says that the planned rules are installed when accepted and that otherwise the store stays empty, as it does when the second, rejected call throws.
- Reconciler.DynamicRuleStore.UpdateDynamicRules models success or refusal only. The asynchronous promise and error reporting are left out.
- Schedules.ScheduleChange requires a valid index. The editor only passes positions of existing schedules. Out of range, JavaScript would write a partial record past the end.
- Schedules.DayToggle requires a valid index, because the source reads `schedules[scheduleIndex].days`. That read throws when the index is invalid.
- The React rendering, the `onChange` and `setNewSite` callbacks, the key handler, and the customisation, popup and block pages. The handlers are modelled by the new list (and input text) they hand on.
