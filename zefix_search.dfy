/** The match resolver of the registry client (`ZefixAPI.getCantonalExcerpt`). */
module ZefixSearch {
  import opened Wrappers
  import opened Types
  import opened JsString

  /** The names are equal once both are lower-cased. */
  predicate NamesMatch(searchTerm: string, name: string)
    ensures searchTerm == name ==> NamesMatch(searchTerm, name)
    ensures NamesMatch(searchTerm, name) ==> |searchTerm| == |name|
  {
    Lower(searchTerm) == Lower(name)
  }

  /** A well-formed candidate whose name matches the search term. */
  predicate IsMatch(searchTerm: string, c: Candidate)
  {
    c.Candidate? && NamesMatch(searchTerm, c.name)
  }

  /** The record built from a candidate, in the registry's own spelling. */
  function Project(c: Candidate): (info: CompanyInfo)
    requires c.Candidate?
    ensures info.search_date == None
  {
    CompanyInfo(c.name, c.uid, c.cantonalExcerptWeb, None)
  }

  /**
   * Position `i` holds the winner of the scan: it matches, and every candidate
   * before it was readable and did not match.
   */
  ghost predicate IsFirstMatch(list: seq<Candidate>, searchTerm: string, i: int)
  {
    && 0 <= i < |list|
    && IsMatch(searchTerm, list[i])
    && forall j :: 0 <= j < i ==> list[j].Candidate? && !IsMatch(searchTerm, list[j])
  }

  /** The `for` loop over `data.list` with its early returns. */
  function ScanCandidates(list: seq<Candidate>, searchTerm: string): (r: Option<CompanyInfo>)
    ensures r.Some? ==> NamesMatch(searchTerm, r.value.company_name) && r.value.search_date == None
    decreases |list|
  {
    if |list| == 0 then None
    else match list[0]
      case Malformed => None
      case Candidate(name, _, _) =>
        if NamesMatch(searchTerm, name) then Some(Project(list[0]))
        else ScanCandidates(list[1..], searchTerm)
  }

  /** `getCantonalExcerpt`: no response or no `list` gives `null`, otherwise the scan. */
  function GetCantonalExcerpt(data: Option<ZefixResponse>, originalSearchTerm: string): (r: Option<CompanyInfo>)
    ensures data.None? || data.value.list.None? ==> r == None
    ensures r.Some? ==> r.value.search_date == None && NamesMatch(originalSearchTerm, r.value.company_name)
  {
    if data.None? || data.value.list.None? then None
    else ScanCandidates(data.value.list.value, originalSearchTerm)
  }

  /** The scan finds something exactly when there is a first match, and returns its projection. */
  lemma {:induction false} ScanFindsFirstMatch(list: seq<Candidate>, searchTerm: string)
    ensures ScanCandidates(list, searchTerm).Some? <==> exists i :: IsFirstMatch(list, searchTerm, i)
    ensures forall i :: IsFirstMatch(list, searchTerm, i) ==>
      ScanCandidates(list, searchTerm) == Some(Project(list[i]))
    decreases |list|
  {
    if |list| == 0 {
    } else if list[0].Malformed? {
    } else if IsMatch(searchTerm, list[0]) {
      assert IsFirstMatch(list, searchTerm, 0);
    } else {
      var tail := list[1..];
      ScanFindsFirstMatch(tail, searchTerm);
      forall i | IsFirstMatch(list, searchTerm, i) ensures i >= 1 && IsFirstMatch(tail, searchTerm, i - 1) {
        forall j | 0 <= j < i - 1 ensures tail[j].Candidate? && !IsMatch(searchTerm, tail[j]) {
          assert tail[j] == list[j + 1];
        }
      }
      forall i | IsFirstMatch(tail, searchTerm, i) ensures IsFirstMatch(list, searchTerm, i + 1) {
        forall j | 0 <= j < i + 1 ensures list[j].Candidate? && !IsMatch(searchTerm, list[j]) {
          if j > 0 { assert list[j] == tail[j - 1]; }
        }
      }
      if ScanCandidates(list, searchTerm).Some? {
        var i :| IsFirstMatch(tail, searchTerm, i);
        assert IsFirstMatch(list, searchTerm, i + 1);
      }
    }
  }

  /** A found record comes from a matching candidate of the list, unchanged but for the missing date. */
  lemma ExcerptIsMatchingCandidate(data: Option<ZefixResponse>, searchTerm: string)
    requires GetCantonalExcerpt(data, searchTerm).Some?
    ensures var info := GetCantonalExcerpt(data, searchTerm).value;
      && data.Some? && data.value.list.Some?
      && NamesMatch(searchTerm, info.company_name)
      && info.search_date == None
      && exists i :: 0 <= i < |data.value.list.value| &&
           data.value.list.value[i] == Candidate(info.company_name, info.company_uid, info.company_cantonal_exerpt_link)
  {
    var list := data.value.list.value;
    ScanFindsFirstMatch(list, searchTerm);
    var i :| IsFirstMatch(list, searchTerm, i);
    assert list[i] == Candidate(list[i].name, list[i].uid, list[i].cantonalExcerptWeb);
  }

  /** A malformed candidate met before any match ends the resolution with `null`. */
  lemma MalformedBeforeMatchGivesNull(list: seq<Candidate>, searchTerm: string, k: nat)
    requires k < |list| && list[k].Malformed?
    requires forall j :: 0 <= j < k ==> !IsMatch(searchTerm, list[j])
    ensures GetCantonalExcerpt(Some(ZefixResponse(Some(list))), searchTerm) == None
  {
    ScanFindsFirstMatch(list, searchTerm);
  }

  /** Without any matching candidate the result is `null`. */
  lemma NoMatchGivesNull(list: seq<Candidate>, searchTerm: string)
    requires forall j :: 0 <= j < |list| ==> !IsMatch(searchTerm, list[j])
    ensures GetCantonalExcerpt(Some(ZefixResponse(Some(list))), searchTerm) == None
  {
    ScanFindsFirstMatch(list, searchTerm);
  }

  /** When every entry is readable, the result is the first matching candidate, if any. */
  lemma WellFormedListGivesFirstMatch(list: seq<Candidate>, searchTerm: string, i: nat)
    requires forall j :: 0 <= j < |list| ==> list[j].Candidate?
    requires i < |list| && IsMatch(searchTerm, list[i])
    requires forall j :: 0 <= j < i ==> !IsMatch(searchTerm, list[j])
    ensures GetCantonalExcerpt(Some(ZefixResponse(Some(list))), searchTerm) ==
      Some(CompanyInfo(list[i].name, list[i].uid, list[i].cantonalExcerptWeb, None))
  {
    ScanFindsFirstMatch(list, searchTerm);
    assert IsFirstMatch(list, searchTerm, i);
  }

  /** Case is ignored: a name matches every spelling that lowers to the same string. */
  lemma MatchIgnoresCase(searchTerm: string, name: string)
    ensures NamesMatch(searchTerm, name) <==>
      |searchTerm| == |name| && forall k :: 0 <= k < |name| ==> LowerChar(searchTerm[k]) == LowerChar(name[k])
  {
    if |searchTerm| == |name| && forall k :: 0 <= k < |name| ==> LowerChar(searchTerm[k]) == LowerChar(name[k]) {
      assert Lower(searchTerm) == Lower(name);
    }
  }

  /**
   * Matching is exact otherwise: a name of another length never matches, so a
   * name that strictly contains or extends the search term, in any case,
   * is never selected.
   */
  lemma DifferentLengthNeverMatches(searchTerm: string, name: string)
    requires |name| != |searchTerm|
    ensures !NamesMatch(searchTerm, name)
  {
    assert |Lower(name)| != |Lower(searchTerm)|;
  }
}
