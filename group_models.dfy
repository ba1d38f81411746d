/** `GroupInfo` of `common/models.py`: a student group and its repository, with the
    memoised accessibility probe and default branch, the derived API root and
    group size, and the paged listings. Every HTTP call is a parameter. */
module GroupModels {
  import opened Wrappers
  import opened Strings
  import opened GitHubApi
  import opened ScraperModels

  /** The declared fields of `GroupInfo`: group number, up to five students and
      the repository URL. */
  datatype GroupRecord = GroupRecord(
    groupNumber: int,
    student1: Option<string>,
    student2: Option<string>,
    student3: Option<string>,
    student4: Option<string>,
    student5: Option<string>,
    repoUrl: string)

  function Students(g: GroupRecord): seq<Option<string>>
  {
    [g.student1, g.student2, g.student3, g.student4, g.student5]
  }

  /** A student field that `filter(None, ...)` keeps: present and non-empty. */
  predicate Truthy(s: Option<string>)
  {
    s.Some? && s.value != ""
  }

  /** The positions of the truthy student fields. */
  ghost function TruthyIndices(students: seq<Option<string>>): set<int>
  {
    set i | 0 <= i < |students| && Truthy(students[i])
  }

  /** One more field adds its position exactly when it is truthy. */
  lemma TruthyIndicesSnoc(students: seq<Option<string>>)
    requires students != []
    ensures TruthyIndices(students)
            == TruthyIndices(students[..|students| - 1])
               + (if Truthy(students[|students| - 1]) then {|students| - 1} else {})
  {
    var n := |students| - 1;
    var front := students[..n];
    assert forall i :: 0 <= i < n ==> front[i] == students[i];
  }

  /** The number of truthy student fields. */
  function CountTruthy(students: seq<Option<string>>): (r: nat)
    ensures r == |TruthyIndices(students)|
    ensures r <= |students|
    decreases |students|
  {
    if students == [] then 0
    else
      var n := |students| - 1;
      var r' := CountTruthy(students[..n]);
      TruthyIndicesSnoc(students);
      assert n !in TruthyIndices(students[..n]);
      r' + (if Truthy(students[n]) then 1 else 0)
  }

  /** `group_size`: the number of named students, at most five. */
  function GroupSize(g: GroupRecord): (r: nat)
    ensures r == |set i | 0 <= i < 5 && Truthy(Students(g)[i])|
    ensures r <= 5
  {
    CountTruthy(Students(g))
  }

  const ApiRoot: string := "https://api.github.com/repos/"

  /** `repo_api`: the API root followed by the last two `/`-separated segments
      of the URL. A URL without `/` has fewer than two segments and the index
      `split[-2]` raises, which is `None` here. */
  function RepoApi(url: string): (r: Option<string>)
    ensures r.Some? <==> '/' in url
  {
    var parts := Split(url, '/');
    SplitLength(url, '/');
    if |parts| < 2 then None
    else Some(ApiRoot + parts[|parts| - 2] + "/" + parts[|parts| - 1])
  }

  /** The API path names the owner and repository that end the URL: two
      separator-free segments that are preceded by `/` or start the URL. */
  lemma RepoApiShape(url: string)
    requires '/' in url
    ensures exists owner: string, name: string ::
      && '/' !in owner && '/' !in name
      && RepoApi(url) == Some(ApiRoot + owner + "/" + name)
      && EndsWith(url, owner + "/" + name)
      && (|url| == |owner| + 1 + |name| || url[|url| - |owner| - |name| - 2] == '/')
  {
    var parts := Split(url, '/');
    SplitLength(url, '/');
    JoinSplit(url, '/');
    JoinLastTwo(parts, '/');
    var owner, name := parts[|parts| - 2], parts[|parts| - 1];
    assert owner + ['/'] + name == owner + "/" + name;
  }

  /** `contributors`: one record per listing entry, in listing order, with no
      PR commits credited yet. */
  function Contributors(listing: seq<ContributorEntry>): (r: seq<Contributor>)
    ensures |r| == |listing|
    ensures forall i :: 0 <= i < |r| ==>
      r[i].login == listing[i].login && r[i].contributions == listing[i].contributions && r[i].commitsPr == 0
  {
    seq(|listing|, i requires 0 <= i < |listing| => Contributor(listing[i].login, listing[i].contributions, 0))
  }

  /** The items of pages `1 .. n - 1`, in page order. */
  function PagesBefore<T>(pageOf: nat -> seq<T>, n: nat): seq<T>
    decreases n
  {
    if n <= 1 then [] else PagesBefore(pageOf, n - 1) + pageOf(n - 1)
  }

  /** Some page of the listing is empty. */
  ghost predicate HasEmptyPage<T>(pageOf: nat -> seq<T>)
  {
    exists n: nat :: 1 <= n && |pageOf(n)| == 0
  }

  /** Below an empty page `n` there is a first empty page. */
  lemma {:induction false} FirstEmptyBelow<T>(pageOf: nat -> seq<T>, n: nat)
    requires 1 <= n && |pageOf(n)| == 0
    ensures exists m: nat :: 1 <= m <= n && |pageOf(m)| == 0 && forall k :: 1 <= k < m ==> |pageOf(k)| > 0
    decreases n
  {
    if forall k :: 1 <= k < n ==> |pageOf(k)| > 0 {
      assert 1 <= n <= n && |pageOf(n)| == 0;
    } else {
      var k :| 1 <= k < n && |pageOf(k)| == 0;
      FirstEmptyBelow(pageOf, k);
    }
  }

  /** The first empty page: where the page-until-empty loop stops. */
  ghost function StopPage<T>(pageOf: nat -> seq<T>): (n: nat)
    requires HasEmptyPage(pageOf)
    ensures 1 <= n && |pageOf(n)| == 0
    ensures forall k :: 1 <= k < n ==> |pageOf(k)| > 0
  {
    var e: nat :| 1 <= e && |pageOf(e)| == 0;
    FirstEmptyBelow(pageOf, e);
    var m: nat :| 1 <= m <= e && |pageOf(m)| == 0 && forall k :: 1 <= k < m ==> |pageOf(k)| > 0;
    m
  }

  /** The whole listing: the items of every page before the first empty one. */
  ghost function Listing<T>(pageOf: nat -> seq<T>): seq<T>
    requires HasEmptyPage(pageOf)
  {
    PagesBefore(pageOf, StopPage(pageOf))
  }

  /** The page-until-empty loop of `prs` and `commits`: requests pages 1, 2, 3,
      ... of a listing (`pageOf(k)` is the JSON list of page `k`) and stops at
      the first empty page. `requested` lists the page numbers asked for. The
      loop ends only if some page is empty, which the precondition says. */
  method Paginate<T>(pageOf: nat -> seq<T>) returns (items: seq<T>, requested: seq<nat>)
    requires HasEmptyPage(pageOf)
    ensures |requested| == StopPage(pageOf)
    ensures forall i :: 0 <= i < |requested| ==> requested[i] == i + 1
    ensures items == Listing(pageOf)
  {
    ghost var bound := StopPage(pageOf);
    items, requested := [], [];
    var pageCounter: nat := 1;
    while true
      invariant 1 <= pageCounter <= bound
      invariant |requested| == pageCounter - 1
      invariant forall i :: 0 <= i < |requested| ==> requested[i] == i + 1
      invariant items == PagesBefore(pageOf, pageCounter)
      decreases bound - pageCounter
    {
      var page := pageOf(pageCounter);
      requested := requested + [pageCounter];
      if |page| == 0 {
        break;
      }
      pageCounter := pageCounter + 1;
      items := items + page;
    }
  }

  /** Every page before the stopping page adds at least one item, so the
      listing has at least as many items as non-empty pages were requested. */
  lemma {:induction false} PagesBeforeLength<T>(pageOf: nat -> seq<T>, n: nat)
    requires forall k :: 1 <= k < n ==> |pageOf(k)| > 0
    ensures |PagesBefore(pageOf, n)| >= n - 1
    decreases n
  {
    if n > 1 {
      PagesBeforeLength(pageOf, n - 1);
    }
  }

  /** The listing is empty exactly when its first page is. */
  lemma ListingEmpty<T>(pageOf: nat -> seq<T>)
    requires HasEmptyPage(pageOf)
    ensures Listing(pageOf) == [] <==> |pageOf(1)| == 0
  {
    var n := StopPage(pageOf);
    PagesBeforeLength(pageOf, n);
    if n > 1 {
      PagesBeforeFirst(pageOf, n);
    }
  }

  /** The items of the listing start with those of the first page. */
  lemma {:induction false} PagesBeforeFirst<T>(pageOf: nat -> seq<T>, n: nat)
    requires n > 1
    ensures |PagesBefore(pageOf, n)| >= |pageOf(1)|
    ensures PagesBefore(pageOf, n)[..|pageOf(1)|] == pageOf(1)
    decreases n
  {
    if n > 2 {
      PagesBeforeFirst(pageOf, n - 1);
      var front := PagesBefore(pageOf, n - 1);
      assert PagesBefore(pageOf, n) == front + pageOf(n - 1);
      assert (front + pageOf(n - 1))[..|pageOf(1)|] == front[..|pageOf(1)|];
    } else {
      assert PagesBefore(pageOf, n) == [] + pageOf(1);
    }
  }

  /** A response that proves the repository reachable. */
  predicate IsOk(p: Probe)
  {
    p.Response? && p.status == 200
  }

  /** The URL after the first probe: a 3xx response with a non-empty
      `Location` replaces it. */
  function AfterRedirect(url: string, first: Probe): (u: string)
    ensures u != url ==> first.Response? && 300 <= first.status < 400 && first.location == Some(u) && u != ""
    ensures first.Response? && 300 <= first.status < 400 && first.location.Some? && first.location.value != ""
            ==> u == first.location.value
  {
    if first.Response? && 300 <= first.status < 400 && first.location.Some? && first.location.value != ""
    then first.location.value
    else url
  }

  /** The answer of a fresh accessibility probe of `url`: the first probe
      answers, and the probe of the URL it redirects to (if any) has status 200.
      The second argument of `head` is `allow_redirects`. */
  ghost function ProbeAnswer(url: string, head: (string, bool) -> Probe): (r: bool)
    ensures head(url, false).Raised? ==> !r
    ensures head(url, false).Response? && AfterRedirect(url, head(url, false)) == url ==>
              (r <==> IsOk(head(url, false)))
    ensures r ==> exists u :: (u == url || Some(u) == head(url, false).location) && IsOk(head(u, false))
  {
    var first := head(url, false);
    first.Response? && IsOk(head(AfterRedirect(url, first), false))
  }

  class GroupInfo {
    const groupNumber: int
    const student1: Option<string>
    const student2: Option<string>
    const student3: Option<string>
    const student4: Option<string>
    const student5: Option<string>
    var repoUrl: string
    /** `_repo_accessible`, unset until the first probe. */
    var accessibleMemo: Option<bool>
    /** `_default_branch`, unset until the first request. */
    var defaultBranchMemo: Option<string>

    constructor (g: GroupRecord)
      ensures Record() == g
      ensures accessibleMemo == None && defaultBranchMemo == None
    {
      groupNumber := g.groupNumber;
      student1, student2, student3 := g.student1, g.student2, g.student3;
      student4, student5 := g.student4, g.student5;
      repoUrl := g.repoUrl;
      accessibleMemo := None;
      defaultBranchMemo := None;
    }

    /** The declared fields, as a value. */
    function Record(): GroupRecord
      reads this
    {
      GroupRecord(groupNumber, student1, student2, student3, student4, student5, repoUrl)
    }

    /** `repo_accessible`. With a memoised answer, returns it without probing.
        Otherwise probes the URL without following redirects (`head(url, false)`),
        moves to the `Location` of a 3xx answer, and probes the resulting URL
        once more, again without following redirects (the default of
        `requests.head`); the answer is whether that second status is 200. A
        transport exception at either probe gives `false`. `probed` lists the
        URLs probed. */
    method RepoAccessible(head: (string, bool) -> Probe) returns (accessible: bool, probed: seq<string>)
      modifies this
      ensures defaultBranchMemo == old(defaultBranchMemo)
      ensures accessibleMemo == Some(accessible)
      ensures old(accessibleMemo).Some? ==>
        accessible == old(accessibleMemo).value && probed == [] && repoUrl == old(repoUrl)
      ensures old(accessibleMemo).None? && head(old(repoUrl), false).Raised? ==>
        !accessible && probed == [old(repoUrl)] && repoUrl == old(repoUrl)
      ensures old(accessibleMemo).None? && head(old(repoUrl), false).Response? ==>
        && repoUrl == AfterRedirect(old(repoUrl), head(old(repoUrl), false))
        && probed == [old(repoUrl), repoUrl]
        && (accessible <==> IsOk(head(repoUrl, false)))
      ensures old(accessibleMemo).None? ==> accessible == ProbeAnswer(old(repoUrl), head)
    {
      if accessibleMemo.Some? {
        return accessibleMemo.value, [];
      }
      var first := head(repoUrl, false);
      probed := [repoUrl];
      if first.Raised? {
        accessible := false;
      } else {
        if 300 <= first.status < 400 {
          var redirectUrl := first.location;
          if redirectUrl.Some? && redirectUrl.value != "" {
            repoUrl := redirectUrl.value;
          }
        }
        var second := head(repoUrl, false);
        probed := probed + [repoUrl];
        accessible := second.Response? && second.status == 200;
      }
      accessibleMemo := Some(accessible);
    }

    /** `default_branch`: the memoised branch, or the `default_branch` that the
        repository's API object reports (`fetchBranch(api)`), which is then
        memoised. Without an API URL the derivation raises and nothing is
        memoised. `fetched` says whether a request was made. */
    method DefaultBranch(fetchBranch: string -> string) returns (branch: Result<string>, fetched: bool)
      modifies this
      ensures repoUrl == old(repoUrl) && accessibleMemo == old(accessibleMemo)
      ensures old(defaultBranchMemo).Some? ==>
        branch == Ok(old(defaultBranchMemo).value) && !fetched && defaultBranchMemo == old(defaultBranchMemo)
      ensures old(defaultBranchMemo).None? && RepoApi(repoUrl).Some? ==>
        fetched && branch == Ok(fetchBranch(RepoApi(repoUrl).value)) && defaultBranchMemo == Some(branch.value)
      ensures old(defaultBranchMemo).None? && RepoApi(repoUrl).None? ==>
        !fetched && branch.Err? && defaultBranchMemo == None
    {
      if defaultBranchMemo.Some? {
        return Ok(defaultBranchMemo.value), false;
      }
      var api := RepoApi(repoUrl);
      if api.None? {
        return Err("IndexError"), false;
      }
      var b := fetchBranch(api.value);
      defaultBranchMemo := Some(b);
      branch, fetched := Ok(b), true;
    }
  }

  /** Memoisation of the accessibility probe: asking twice probes at most
      once, and both answers agree. */
  method AccessibilityProbedOnce(g: GroupInfo, head: (string, bool) -> Probe)
    returns (first: bool, second: bool, probedAgain: seq<string>)
    modifies g
    ensures first == second && probedAgain == []
    ensures g.accessibleMemo == Some(first)
  {
    var p1;
    first, p1 := g.RepoAccessible(head);
    second, probedAgain := g.RepoAccessible(head);
  }

  /** Memoisation of the default branch: the second access makes no request. */
  method DefaultBranchFetchedOnce(g: GroupInfo, fetchBranch: string -> string)
    returns (first: Result<string>, second: Result<string>, fetchedAgain: bool)
    modifies g
    ensures first.Ok? ==> second == first && !fetchedAgain
  {
    var f1;
    first, f1 := g.DefaultBranch(fetchBranch);
    second, fetchedAgain := g.DefaultBranch(fetchBranch);
  }
}
