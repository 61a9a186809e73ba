/**
 * The blocked-site editor of the popup: the list of sites and the text in
 * its input field. Adding normalises the typed text and refuses empty or
 * repeated entries; removing splices a copy of the list.
 */
module BlockedSites {
  import opened JsString
  import opened JsArray

  /** The site list the editor shows and the text of its input field. */
  datatype SiteEditor = SiteEditor(sites: seq<string>, input: string)

  /** `newSite.trim().toLowerCase()` */
  function Normalise(input: string): (site: string)
    ensures IsTrimmed(site) && IsLowerAscii(site)
    ensures |site| <= |input|
  {
    LowerPreservesTrimmed(Trim(input));
    ToLower(Trim(input))
  }

  /** The stored text is the part of the input between its leading and its
      trailing whitespace: only trimmable characters lie outside it. */
  lemma NormaliseKeepsInner(input: string)
    ensures Leading(input) + |Normalise(input)| <= |input|
    ensures forall i :: 0 <= i < Leading(input) ==> IsTrimmable(input[i])
    ensures forall i :: Leading(input) + |Normalise(input)| <= i < |input| ==> IsTrimmable(input[i])
  {
    TrimIsSlice(input);
    TrimDropsOnlyTrimmable(input);
  }

  /** Each stored character is the ASCII lower case of the input character
      at the same place of that inner part. */
  lemma NormaliseLowersEachChar(input: string)
    ensures Leading(input) + |Normalise(input)| <= |input|
    ensures forall i :: 0 <= i < |Normalise(input)| ==>
      Normalise(input)[i] == LowerChar(input[Leading(input) + i])
  {
    var t := Trim(input);
    TrimIsSlice(input);
    LowerOfSlice(input, Leading(input), t);
  }

  /** Lower-casing a slice `t` of `input`, told character by character. */
  lemma LowerOfSlice(input: string, a: nat, t: string)
    requires a + |t| <= |input| && t == input[a..a + |t|]
    ensures forall i :: 0 <= i < |t| ==> ToLower(t)[i] == LowerChar(input[a + i])
  {
    assert forall i :: 0 <= i < |t| ==> t[i] == input[a + i];
  }

  predicate NoDuplicates(sites: seq<string>) {
    forall i, j :: 0 <= i < j < |sites| ==> sites[i] != sites[j]
  }

  /** What the editor itself ever stores: non-empty, trimmed, lower case. */
  predicate CleanSite(site: string) {
    site != [] && IsTrimmed(site) && IsLowerAscii(site)
  }

  /** `handleAddSite`: the normalised text is appended, and the input field
      cleared, only when it is non-empty and not listed yet; otherwise the
      editor is left as it was. */
  function AddSite(e: SiteEditor): (r: SiteEditor)
    ensures var site := Normalise(e.input);
      && (site != [] && site !in e.sites ==> r == SiteEditor(e.sites + [site], ""))
      && (site == [] || site in e.sites ==> r == e)
  {
    var site := Normalise(e.input);
    if site != [] && site !in e.sites then SiteEditor(e.sites + [site], "") else e
  }

  /** A successful add grows the list by one at the end; the old entries
      stay where they were. */
  lemma AddSiteAppends(e: SiteEditor)
    requires AddSite(e) != e
    ensures |AddSite(e).sites| == |e.sites| + 1
    ensures AddSite(e).sites[..|e.sites|] == e.sites
    ensures AddSite(e).sites[|e.sites|] == Normalise(e.input)
    ensures AddSite(e).input == ""
  {
  }

  /** An add never creates a duplicate. */
  lemma AddSiteKeepsNoDuplicates(e: SiteEditor)
    requires NoDuplicates(e.sites)
    ensures NoDuplicates(AddSite(e).sites)
  {
    var site := Normalise(e.input);
    if site != [] && site !in e.sites {
      var n := e.sites + [site];
      forall i, j | 0 <= i < j < |n|
        ensures n[i] != n[j]
      {
        if j == |e.sites| {
          assert n[i] == e.sites[i];
        }
      }
    }
  }

  /** An add never stores an empty or non-normalised entry. */
  lemma AddSiteKeepsEntriesClean(e: SiteEditor)
    requires forall i :: 0 <= i < |e.sites| ==> CleanSite(e.sites[i])
    ensures forall i :: 0 <= i < |AddSite(e).sites| ==> CleanSite(AddSite(e).sites[i])
  {
    var site := Normalise(e.input);
    if site != [] && site !in e.sites {
      assert CleanSite(site);
    }
  }

  /** Typing the same text again after a successful add changes nothing:
      the second add is refused. */
  lemma AddSiteTwice(e: SiteEditor)
    ensures AddSite(SiteEditor(AddSite(e).sites, e.input)).sites == AddSite(e).sites
  {
  }

  /** Normalising twice is normalising once. */
  lemma NormaliseIdempotent(typed: string)
    ensures Normalise(Normalise(typed)) == Normalise(typed)
  {
    var s := Normalise(typed);
    TrimKeepsTrimmed(s);
    ToLowerKeepsLower(s);
  }

  /** Text that differs only in surrounding blanks or ASCII case is one site. */
  lemma AddSiteIgnoresCaseAndBlanks(sites: seq<string>, typed: string)
    ensures AddSite(SiteEditor(sites, typed)).sites == AddSite(SiteEditor(sites, Normalise(typed))).sites
  {
    NormaliseIdempotent(typed);
  }

  /** `handleRemoveSite(index)`: a copy of the list, spliced at `index`. */
  method RemoveSite(sites: seq<string>, index: int) returns (r: seq<string>)
    ensures r == SpliceOne(sites, index)
    ensures 0 <= index < |sites| ==> r == sites[..index] + sites[index + 1..]
  {
    r := CopyAndSpliceOne(sites, index);
    if 0 <= index < |sites| {
      SpliceOneAtIndex(sites, index);
    }
  }

  /** Removing an entry keeps the list free of duplicates, and a site
      that occurred once is no longer listed. */
  lemma RemoveSiteKeepsNoDuplicates(sites: seq<string>, index: int)
    requires NoDuplicates(sites) && 0 <= index < |sites|
    ensures NoDuplicates(SpliceOne(sites, index))
    ensures sites[index] !in SpliceOne(sites, index)
  {
    var r := SpliceOne(sites, index);
    assert forall i :: 0 <= i < |r| ==> r[i] == sites[if i < index then i else i + 1];
  }
}
