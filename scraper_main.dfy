/** The per-group statistics of `scrape` and the directory names of `clone`, both in
    `scraper/main.py`: crediting merged-PR commits to contributors, the message
    averages, the record of an accessible or inaccessible repository, and the
    paths a repository is cloned into. Every HTTP response is an input. */
module Scrape {
  import opened Wrappers
  import opened Arithmetic
  import opened Strings
  import opened GitHubApi
  import opened ScraperModels
  import opened GroupModels
  import AM = ActivityMatrix

  // ---------------------------------------------------------------------------
  // Crediting PR commits to contributors
  // ---------------------------------------------------------------------------

  /** The identity test of the attribution loop: the commit's author or
      committer account has the contributor's login, or its git author or
      committer name is non-empty and equals the login up to case. */
  predicate IdentityMatches(c: Commit, login: string)
    ensures c.authorLogin == Some(login) || c.committerLogin == Some(login) ==> IdentityMatches(c, login)
    ensures c.authorName != "" && Lower(c.authorName) == Lower(login) ==> IdentityMatches(c, login)
    ensures c.committerName != "" && Lower(c.committerName) == Lower(login) ==> IdentityMatches(c, login)
    ensures IdentityMatches(c, login) ==>
      c.authorLogin == Some(login) || c.committerLogin == Some(login) ||
      Lower(c.authorName) == Lower(login) || Lower(c.committerName) == Lower(login)
  {
    || c.authorLogin == Some(login)
    || (c.authorName != "" && Lower(c.authorName) == Lower(login))
    || c.committerLogin == Some(login)
    || (c.committerName != "" && Lower(c.committerName) == Lower(login))
  }

  /** The position of the first contributor, in list order, whose login
      matches the commit; `|contributors|` when none does. */
  function FirstMatch(contributors: seq<Contributor>, c: Commit): (k: nat)
    ensures k <= |contributors|
    ensures k < |contributors| ==> IdentityMatches(c, contributors[k].login)
    ensures forall j :: 0 <= j < k ==> !IdentityMatches(c, contributors[j].login)
    decreases |contributors|
  {
    if contributors == [] then 0
    else if IdentityMatches(c, contributors[0].login) then 0
    else 1 + FirstMatch(contributors[1..], c)
  }

  /** Two contributor lists with the same logins, in the same order. */
  predicate SameLogins(a: seq<Contributor>, b: seq<Contributor>)
  {
    |a| == |b| && forall i :: 0 <= i < |a| ==> a[i].login == b[i].login
  }

  /** The first match depends only on the logins. */
  lemma {:induction false} FirstMatchByLogins(a: seq<Contributor>, b: seq<Contributor>, c: Commit)
    requires SameLogins(a, b)
    ensures FirstMatch(a, c) == FirstMatch(b, c)
    decreases |a|
  {
    if a != [] && !IdentityMatches(c, a[0].login) {
      assert a[0].login == b[0].login;
      FirstMatchByLogins(a[1..], b[1..], c);
    }
  }

  /** One PR commit credited: the first matching contributor's `commitsPr`
      goes up by one and every other entry is unchanged. */
  function Credit(contributors: seq<Contributor>, c: Commit): (r: seq<Contributor>)
    ensures SameLogins(contributors, r)
    ensures forall i :: 0 <= i < |r| ==>
      && r[i].contributions == contributors[i].contributions
      && r[i].commitsPr == contributors[i].commitsPr + (if i == FirstMatch(contributors, c) then 1 else 0)
  {
    var k := FirstMatch(contributors, c);
    if k < |contributors| then contributors[k := contributors[k].(commitsPr := contributors[k].commitsPr + 1)]
    else contributors
  }

  /** The PR commits `cs` credited one after the other. */
  function CreditAll(contributors: seq<Contributor>, cs: seq<Commit>): (r: seq<Contributor>)
    ensures |r| == |contributors|
    decreases |cs|
  {
    if cs == [] then contributors else Credit(CreditAll(contributors, cs[..|cs| - 1]), cs[|cs| - 1])
  }

  lemma CreditAllSnoc(contributors: seq<Contributor>, cs: seq<Commit>, c: Commit)
    ensures CreditAll(contributors, cs + [c]) == Credit(CreditAll(contributors, cs), c)
  {
    assert (cs + [c])[..|cs|] == cs;
  }

  /** Crediting keeps the contributors, their order, logins and listing
      contributions. */
  lemma {:induction false} CreditAllKeepsLogins(contributors: seq<Contributor>, cs: seq<Commit>)
    ensures SameLogins(contributors, CreditAll(contributors, cs))
    ensures forall i :: 0 <= i < |contributors| ==>
      CreditAll(contributors, cs)[i].contributions == contributors[i].contributions
    decreases |cs|
  {
    if cs != [] {
      CreditAllKeepsLogins(contributors, cs[..|cs| - 1]);
    }
  }

  /** The PR commits credited to contributor `i`. */
  function CreditedTo(contributors: seq<Contributor>, cs: seq<Commit>, i: int): set<int>
  {
    set k | 0 <= k < |cs| && FirstMatch(contributors, cs[k]) == i
  }

  lemma CreditedToSnoc(contributors: seq<Contributor>, cs: seq<Commit>, i: int)
    requires cs != []
    ensures var n := |cs| - 1;
      CreditedTo(contributors, cs, i) ==
        CreditedTo(contributors, cs[..n], i) + (if FirstMatch(contributors, cs[n]) == i then {n} else {})
  {
    var n := |cs| - 1;
    var front := cs[..n];
    forall k | 0 <= k < n
      ensures front[k] == cs[k]
    {
    }
  }

  /** After crediting, each contributor's `commitsPr` has grown by the number
      of PR commits whose first matching contributor it is. */
  lemma {:induction false} CreditAllCounts(contributors: seq<Contributor>, cs: seq<Commit>, i: int)
    requires 0 <= i < |contributors|
    ensures CreditAll(contributors, cs)[i].commitsPr == contributors[i].commitsPr + |CreditedTo(contributors, cs, i)|
    decreases |cs|
  {
    if cs == [] {
      assert CreditedTo(contributors, cs, i) == {};
    } else {
      var n := |cs| - 1;
      var front := cs[..n];
      var prev := CreditAll(contributors, front);
      CreditAllCounts(contributors, front, i);
      CreditAllKeepsLogins(contributors, front);
      FirstMatchByLogins(contributors, prev, cs[n]);
      assert CreditAll(contributors, cs) == Credit(prev, cs[n]);
      CreditedToSnoc(contributors, cs, i);
    }
  }

  /** A PR commit that matches no contributor credits nobody. */
  lemma {:induction false} UnmatchedCreditsNobody(contributors: seq<Contributor>, cs: seq<Commit>, c: Commit)
    requires forall i :: 0 <= i < |contributors| ==> !IdentityMatches(c, contributors[i].login)
    ensures CreditAll(contributors, cs + [c]) == CreditAll(contributors, cs)
  {
    var before := CreditAll(contributors, cs);
    CreditAllSnoc(contributors, cs, c);
    CreditAllKeepsLogins(contributors, cs);
    FirstMatchByLogins(contributors, before, c);
    assert FirstMatch(before, c) == |before|;
    var after := Credit(before, c);
    assert forall i :: 0 <= i < |after| ==> after[i] == before[i];
    assert after == before;
  }

  /** The sum of the `commitsPr` counters. */
  function TotalPr(contributors: seq<Contributor>): nat
    decreases |contributors|
  {
    if contributors == [] then 0
    else TotalPr(contributors[..|contributors| - 1]) + contributors[|contributors| - 1].commitsPr
  }

  lemma {:induction false} TotalPrCredit(contributors: seq<Contributor>, c: Commit)
    ensures TotalPr(Credit(contributors, c)) ==
      TotalPr(contributors) + (if FirstMatch(contributors, c) < |contributors| then 1 else 0)
    decreases |contributors|
  {
    var r := Credit(contributors, c);
    var k := FirstMatch(contributors, c);
    if contributors != [] {
      var n := |contributors| - 1;
      TotalPrBump(contributors[..n], r[..n], k);
    }
  }

  lemma {:induction false} TotalPrBump(a: seq<Contributor>, b: seq<Contributor>, k: int)
    requires |a| == |b|
    requires forall i :: 0 <= i < |a| ==> b[i].commitsPr == a[i].commitsPr + (if i == k then 1 else 0)
    ensures TotalPr(b) == TotalPr(a) + (if 0 <= k < |a| then 1 else 0)
    decreases |a|
  {
    if a != [] {
      var n := |a| - 1;
      TotalPrBump(a[..n], b[..n], k);
    }
  }

  /** Some contributor matches the commit. */
  predicate Credited(contributors: seq<Contributor>, c: Commit)
  {
    FirstMatch(contributors, c) < |contributors|
  }

  /** The PR commits that match some contributor. */
  function Matched(contributors: seq<Contributor>, cs: seq<Commit>): set<int>
  {
    set k | 0 <= k < |cs| && Credited(contributors, cs[k])
  }

  lemma MatchedSnoc(contributors: seq<Contributor>, cs: seq<Commit>)
    requires cs != []
    ensures var n := |cs| - 1;
      Matched(contributors, cs) ==
        Matched(contributors, cs[..n]) + (if Credited(contributors, cs[n]) then {n} else {})
  {
    var n := |cs| - 1;
    var front := cs[..n];
    forall k | 0 <= k < n
      ensures front[k] == cs[k]
    {
    }
  }

  /** Extending the PR commits by one adds one matched commit exactly when the
      new commit matches some contributor. */
  lemma MatchedSnocCount(contributors: seq<Contributor>, cs: seq<Commit>)
    requires cs != []
    ensures var n := |cs| - 1;
      |Matched(contributors, cs)| ==
        |Matched(contributors, cs[..n])| + (if Credited(contributors, cs[n]) then 1 else 0)
  {
    var n := |cs| - 1;
    var m := Matched(contributors, cs[..n]);
    MatchedSnoc(contributors, cs);
    assert n !in m;
  }

  /** One more PR commit, credited to a list with the original logins, adds one
      to the total exactly when it matches an original contributor. */
  lemma CreditStepTotal(contributors: seq<Contributor>, prev: seq<Contributor>, c: Commit)
    requires SameLogins(contributors, prev)
    ensures TotalPr(Credit(prev, c)) == TotalPr(prev) + (if Credited(contributors, c) then 1 else 0)
  {
    FirstMatchByLogins(contributors, prev, c);
    TotalPrCredit(prev, c);
  }

  /** Each PR commit is credited to at most one contributor: the counters
      grow by exactly the number of matched commits, so by at most the
      number of PR commits. */
  lemma {:induction false} CreditAllTotal(contributors: seq<Contributor>, cs: seq<Commit>)
    ensures TotalPr(CreditAll(contributors, cs)) == TotalPr(contributors) + |Matched(contributors, cs)|
    ensures |Matched(contributors, cs)| <= |cs|
    decreases |cs|
  {
    if cs == [] {
      assert Matched(contributors, cs) == {};
    } else {
      var n := |cs| - 1;
      var c := cs[n];
      var front := cs[..n];
      var prev := CreditAll(contributors, front);
      CreditAllTotal(contributors, front);
      CreditAllKeepsLogins(contributors, front);
      CreditStepTotal(contributors, prev, c);
      assert cs == front + [c];
      CreditAllSnoc(contributors, front, c);
      MatchedSnocCount(contributors, cs);
    }
  }

  /** The numbers of the merged pull requests, in listing order. */
  function MergedNumbers(prs: seq<PullRequest>): (r: seq<int>)
    ensures |r| <= |prs|
    ensures (forall i :: 0 <= i < |prs| ==> prs[i].mergedAt.None?) ==> r == []
    decreases |prs|
  {
    if prs == [] then []
    else
      var n := |prs| - 1;
      MergedNumbers(prs[..n]) + (if prs[n].mergedAt.Some? then [prs[n].number] else [])
  }

  /** Filtering the merged PRs of a concatenated listing filters each part. */
  lemma {:induction false} MergedNumbersAppend(a: seq<PullRequest>, b: seq<PullRequest>)
    ensures MergedNumbers(a + b) == MergedNumbers(a) + MergedNumbers(b)
    decreases |b|
  {
    if b == [] {
      assert a + b == a;
    } else {
      assert (a + b)[..|a + b| - 1] == a + b[..|b| - 1];
      MergedNumbersAppend(a, b[..|b| - 1]);
    }
  }

  /** When every PR is merged, all their numbers are kept, in order. */
  lemma {:induction false} AllMergedKept(prs: seq<PullRequest>)
    requires forall i :: 0 <= i < |prs| ==> prs[i].mergedAt.Some?
    ensures |MergedNumbers(prs)| == |prs|
    ensures forall i :: 0 <= i < |prs| ==> MergedNumbers(prs)[i] == prs[i].number
    decreases |prs|
  {
    if prs != [] {
      AllMergedKept(prs[..|prs| - 1]);
    }
  }

  /** The commits of the listed PRs (`prCommits(n)` is the commit list of
      PR `n`), concatenated in the order of `numbers`. */
  function PrCommitsOf(prCommits: int -> seq<Commit>, numbers: seq<int>): (r: seq<Commit>)
    ensures (forall k :: 0 <= k < |numbers| ==> prCommits(numbers[k]) == []) ==> r == []
    decreases |numbers|
  {
    if numbers == [] then []
    else PrCommitsOf(prCommits, numbers[..|numbers| - 1]) + prCommits(numbers[|numbers| - 1])
  }

  /** Every commit of every listed PR is in the concatenation, as often as in
      its PR at least. */
  lemma {:induction false} PrCommitsOfContains(prCommits: int -> seq<Commit>, numbers: seq<int>, k: int)
    requires 0 <= k < |numbers|
    ensures multiset(prCommits(numbers[k])) <= multiset(PrCommitsOf(prCommits, numbers))
    decreases |numbers|
  {
    var front := numbers[..|numbers| - 1];
    var last := prCommits(numbers[|numbers| - 1]);
    assert PrCommitsOf(prCommits, numbers) == PrCommitsOf(prCommits, front) + last;
    if k < |numbers| - 1 {
      PrCommitsOfContains(prCommits, front, k);
      assert front[k] == numbers[k];
    }
  }

  lemma PrCommitsOfSnoc(prCommits: int -> seq<Commit>, numbers: seq<int>, n: int)
    ensures PrCommitsOf(prCommits, numbers + [n]) == PrCommitsOf(prCommits, numbers) + prCommits(n)
  {
    assert (numbers + [n])[..|numbers|] == numbers;
  }

  /** No de-duplication: the merged commits number exactly the sum of the
      PR commit lists. */
  lemma {:induction false} PrCommitsOfAppend(prCommits: int -> seq<Commit>, a: seq<int>, b: seq<int>)
    ensures PrCommitsOf(prCommits, a + b) == PrCommitsOf(prCommits, a) + PrCommitsOf(prCommits, b)
    decreases |b|
  {
    if b == [] {
      assert a + b == a;
    } else {
      assert (a + b)[..|a + b| - 1] == a + b[..|b| - 1];
      PrCommitsOfAppend(prCommits, a, b[..|b| - 1]);
    }
  }

  /** `[c["commit"]["message"] for c in cs]`. */
  function Messages(cs: seq<Commit>): (r: seq<string>)
    ensures |r| == |cs|
    ensures forall i :: 0 <= i < |cs| ==> r[i] == cs[i].message
  {
    seq(|cs|, i requires 0 <= i < |cs| => cs[i].message)
  }

  lemma MessagesAppend(a: seq<Commit>, b: seq<Commit>)
    ensures Messages(a + b) == Messages(a) + Messages(b)
  {
    var l, r := Messages(a + b), Messages(a) + Messages(b);
    assert |l| == |r|;
    forall i | 0 <= i < |l|
      ensures l[i] == r[i]
    {
      if i < |a| {
        assert (a + b)[i] == a[i];
      } else {
        assert (a + b)[i] == b[i - |a|];
      }
    }
  }

  /** Crediting a concatenation credits the second part after the first. */
  lemma {:induction false} CreditAllAppend(contributors: seq<Contributor>, a: seq<Commit>, b: seq<Commit>)
    ensures CreditAll(contributors, a + b) == CreditAll(CreditAll(contributors, a), b)
    decreases |b|
  {
    if b == [] {
      assert a + b == a;
    } else {
      var n := |b| - 1;
      assert a + b == (a + b[..n]) + [b[n]];
      assert b == b[..n] + [b[n]];
      CreditAllAppend(contributors, a, b[..n]);
      CreditAllSnoc(contributors, a + b[..n], b[n]);
      CreditAllSnoc(CreditAll(contributors, a), b[..n], b[n]);
    }
  }

  /** The innermost loop of the attribution block: scans the contributors in
      order and credits the first one whose identity matches the commit. */
  method CreditCommit(contributors: seq<Contributor>, commit: Commit) returns (credited: seq<Contributor>)
    ensures credited == Credit(contributors, commit)
  {
    credited := contributors;
    var k := 0;
    while k < |credited|
      invariant 0 <= k <= |credited|
      invariant credited == contributors
      invariant forall l :: 0 <= l < k ==> !IdentityMatches(commit, credited[l].login)
    {
      if IdentityMatches(commit, credited[k].login) {
        credited := credited[k := credited[k].(commitsPr := credited[k].commitsPr + 1)];
        return;
      }
      k := k + 1;
    }
  }

  /** The loop over the commits of one PR: each is credited in turn. */
  method CreditCommits(contributors: seq<Contributor>, prCommits: seq<Commit>) returns (credited: seq<Contributor>)
    ensures credited == CreditAll(contributors, prCommits)
  {
    credited := contributors;
    var j := 0;
    while j < |prCommits|
      invariant 0 <= j <= |prCommits|
      invariant credited == CreditAll(contributors, prCommits[..j])
    {
      assert prCommits[..j + 1] == prCommits[..j] + [prCommits[j]];
      CreditAllSnoc(contributors, prCommits[..j], prCommits[j]);
      credited := CreditCommit(credited, prCommits[j]);
      j := j + 1;
    }
    assert prCommits[..j] == prCommits;
  }

  /** The running lists after merging the PR commits `merged`: the commits
      and messages are extended by them, and they are credited. */
  predicate MergedSoFar(allCommits: seq<Commit>, allMessages: seq<string>, credited: seq<Contributor>,
                        commits: seq<Commit>, commitMessages: seq<string>, contributors: seq<Contributor>,
                        merged: seq<Commit>)
  {
    && allCommits == commits + merged
    && allMessages == commitMessages + Messages(merged)
    && credited == CreditAll(contributors, merged)
  }

  lemma MergeStep(allCommits: seq<Commit>, allMessages: seq<string>, credited: seq<Contributor>,
                  commits: seq<Commit>, commitMessages: seq<string>, contributors: seq<Contributor>,
                  merged: seq<Commit>, pc: seq<Commit>)
    requires MergedSoFar(allCommits, allMessages, credited, commits, commitMessages, contributors, merged)
    ensures MergedSoFar(allCommits + pc, allMessages + Messages(pc), CreditAll(credited, pc),
                        commits, commitMessages, contributors, merged + pc)
  {
    CommitsStep(allCommits, commits, merged, pc);
    MessagesStep(allMessages, commitMessages, merged, pc);
    CreditAllAppend(contributors, merged, pc);
  }

  lemma CommitsStep(allCommits: seq<Commit>, commits: seq<Commit>, merged: seq<Commit>, pc: seq<Commit>)
    requires allCommits == commits + merged
    ensures allCommits + pc == commits + (merged + pc)
  {
  }

  lemma MessagesStep(allMessages: seq<string>, commitMessages: seq<string>, merged: seq<Commit>, pc: seq<Commit>)
    requires allMessages == commitMessages + Messages(merged)
    ensures allMessages + Messages(pc) == commitMessages + Messages(merged + pc)
  {
    MessagesAppend(merged, pc);
  }

  /** The attribution and merge block of `scrape`: for each merged PR, in
      listing order, its commit messages are appended to `commitMessages`,
      each of its commits is credited to the first matching contributor,
      and its commits are appended to `commits`. */
  method MergePrCommits(commits: seq<Commit>, commitMessages: seq<string>, contributors: seq<Contributor>,
                        prs: seq<PullRequest>, prCommits: int -> seq<Commit>)
    returns (allCommits: seq<Commit>, allMessages: seq<string>, credited: seq<Contributor>)
    ensures allCommits == commits + PrCommitsOf(prCommits, MergedNumbers(prs))
    ensures allMessages == commitMessages + Messages(PrCommitsOf(prCommits, MergedNumbers(prs)))
    ensures credited == CreditAll(contributors, PrCommitsOf(prCommits, MergedNumbers(prs)))
  {
    var mergedPrs := MergedNumbers(prs);
    allCommits, allMessages, credited := commits, commitMessages, contributors;
    var p := 0;
    assert allMessages == commitMessages + Messages([]);
    while p < |mergedPrs|
      invariant 0 <= p <= |mergedPrs|
      invariant MergedSoFar(allCommits, allMessages, credited, commits, commitMessages, contributors,
                            PrCommitsOf(prCommits, mergedPrs[..p]))
    {
      var prNum := mergedPrs[p];
      var pc := prCommits(prNum);
      ghost var before := PrCommitsOf(prCommits, mergedPrs[..p]);
      assert mergedPrs[..p + 1] == mergedPrs[..p] + [prNum];
      PrCommitsOfSnoc(prCommits, mergedPrs[..p], prNum);
      MergeStep(allCommits, allMessages, credited, commits, commitMessages, contributors, before, pc);
      allMessages := allMessages + Messages(pc);
      credited := CreditCommits(credited, pc);
      allCommits := allCommits + pc;
      p := p + 1;
    }
    assert mergedPrs[..p] == mergedPrs;
  }

  // ---------------------------------------------------------------------------
  // Message averages
  // ---------------------------------------------------------------------------

  function TotalLength(msgs: seq<string>): (r: nat)
    ensures forall i :: 0 <= i < |msgs| ==> |msgs[i]| <= r
    decreases |msgs|
  {
    if msgs == [] then 0 else TotalLength(msgs[..|msgs| - 1]) + |msgs[|msgs| - 1]|
  }

  /** The summed length is zero exactly when every message is empty. */
  lemma TotalLengthZero(msgs: seq<string>)
    ensures TotalLength(msgs) == 0 <==> forall i :: 0 <= i < |msgs| ==> msgs[i] == ""
  {
    if TotalLength(msgs) == 0 {
      assert forall i :: 0 <= i < |msgs| ==> |msgs[i]| == 0;
    } else {
      TotalLengthPositive(msgs);
    }
  }

  lemma {:induction false} TotalLengthPositive(msgs: seq<string>)
    requires TotalLength(msgs) > 0
    ensures exists i :: 0 <= i < |msgs| && msgs[i] != ""
    decreases |msgs|
  {
    var n := |msgs|;
    if msgs[n - 1] == "" {
      TotalLengthPositive(msgs[..n - 1]);
      var i :| 0 <= i < n - 1 && msgs[..n - 1][i] != "";
      assert msgs[i] != "";
    } else {
      assert msgs[n - 1] != "";
    }
  }

  lemma {:induction false} TotalLengthAppend(a: seq<string>, b: seq<string>)
    ensures TotalLength(a + b) == TotalLength(a) + TotalLength(b)
    decreases |b|
  {
    if b == [] {
      assert a + b == a;
    } else {
      assert (a + b)[..|a + b| - 1] == a + b[..|b| - 1];
      TotalLengthAppend(a, b[..|b| - 1]);
    }
  }

  /** `sum(len(c) for c in msgs) / len(msgs)`, in exact arithmetic; no
      messages divide by zero (`None`). */
  function AverageLength(msgs: seq<string>): (r: Option<real>)
    ensures r.None? <==> msgs == []
    ensures r.Some? ==> r.value * |msgs| as real == TotalLength(msgs) as real
  {
    if msgs == [] then None
    else
      DivTimes(TotalLength(msgs) as real, |msgs| as real);
      Some(TotalLength(msgs) as real / |msgs| as real)
  }

  /** The average over all messages weighs the averages of the two groups
      by their sizes. */
  lemma AverageOfConcat(a: seq<string>, b: seq<string>)
    requires a != [] && b != []
    ensures AverageLength(a + b).value * |a + b| as real ==
      AverageLength(a).value * |a| as real + AverageLength(b).value * |b| as real
  {
    TotalLengthAppend(a, b);
  }

  /** Every message at most `bound` characters long keeps the average at
      most `bound`. */
  lemma {:induction false} AverageBounded(msgs: seq<string>, bound: nat)
    requires msgs != []
    requires forall i :: 0 <= i < |msgs| ==> |msgs[i]| <= bound
    ensures 0.0 <= AverageLength(msgs).value <= bound as real
  {
    TotalLengthBounded(msgs, bound);
    QuotientOfBounded(TotalLength(msgs), |msgs|, bound);
  }

  /** Dividing by a non-zero number and multiplying back gives the dividend. */
  lemma DivTimes(t: real, n: real)
    requires n != 0.0
    ensures (t / n) * n == t
  {
  }

  /** A total of at most `n * bound` over `n > 0` items averages at most `bound`. */
  lemma QuotientOfBounded(t: nat, n: nat, bound: nat)
    requires n > 0 && t <= n * bound
    ensures 0.0 <= t as real / n as real <= bound as real
  {
    MulAsReal(n, bound);
    QuotientBound(t as real, n as real, bound as real);
  }

  lemma {:induction false} TotalLengthBounded(msgs: seq<string>, bound: nat)
    requires forall i :: 0 <= i < |msgs| ==> |msgs[i]| <= bound
    ensures TotalLength(msgs) <= |msgs| * bound
    decreases |msgs|
  {
    if msgs != [] {
      var n := |msgs|;
      var front := msgs[..n - 1];
      assert forall i :: 0 <= i < |front| ==> front[i] == msgs[i];
      TotalLengthBounded(front, bound);
      assert TotalLength(msgs) == TotalLength(front) + |msgs[n - 1]|;
      assert (n - 1) * bound + bound == n * bound;
    }
  }

  // ---------------------------------------------------------------------------
  // One group's statistics
  // ---------------------------------------------------------------------------

  /** The responses GitHub gives for one accessible repository, as inputs:
      the contributor listing, the pages of the PR and commit listings, the
      commits of each PR, the `default_branch` of a repository API object,
      the recursive file tree, the README as plain text (`None` without
      `content`), the latest commit of the default branch and its workflow
      runs, the report's contents response and the checker's stderr.
      `totalCommits` is `Contributor.total_commits`. */
  datatype RepoSnapshot = RepoSnapshot(
    contributorListing: seq<ContributorEntry>,
    prPage: nat -> seq<PullRequest>,
    commitPage: nat -> seq<Commit>,
    prCommits: int -> seq<Commit>,
    fetchBranch: string -> string,
    fetchTree: (string, string) -> seq<TreeEntry>,
    readmeText: Option<string>,
    latestSha: string,
    runs: seq<WorkflowRun>,
    reportResponse: ContentsResponse,
    checkerStderr: string,
    totalCommits: Contributor -> int)

  /** Both paged listings end with an empty page. */
  ghost predicate ListingsEnd(snap: RepoSnapshot)
  {
    HasEmptyPage(snap.prPage) && HasEmptyPage(snap.commitPage)
  }

  /** The record of an inaccessible repository: every statistic `None`. */
  function InaccessibleStats(): (s: RepoStats)
    ensures Unpopulated(s)
  {
    RepoStats(None, None, None, None, None, None, None, None, None,
              None, None, None, None, None, None, None, None, None, None)
  }

  function SumInts(xs: seq<int>): int
    decreases |xs|
  {
    if xs == [] then 0 else SumInts(xs[..|xs| - 1]) + xs[|xs| - 1]
  }

  /** The statistics `scrape` derives from the contributor, PR and commit
      listings. */
  datatype History = History(
    numContributors: nat,
    numPrs: nat,
    numCommitsToMain: nat,
    averageCommitLengthToMain: real,
    latestCommit: string,
    averageCommitLength: real,
    contributionsPerContributor: seq<int>,
    totalCommits: int,
    activityMatrix: seq<seq<int>>)

  /** The commits of the merged PRs of the snapshot, in PR order. */
  ghost function MergedPrCommits(snap: RepoSnapshot): seq<Commit>
    requires ListingsEnd(snap)
  {
    PrCommitsOf(snap.prCommits, MergedNumbers(Listing(snap.prPage)))
  }

  /** The statistics that lines 66-130 of `scrape` derive from the listings of a
      repository whose default branch has commits: the contributor, PR and
      default-branch commit counts, the average message length over the
      default branch and over all commits (those of the merged PRs appended),
      the author date of the newest default-branch commit, each credited
      contributor's `total_commits` and their sum, and the activity matrix of
      all commits. */
  ghost function HistoryOf(snap: RepoSnapshot): (h: History)
    requires ListingsEnd(snap) && Listing(snap.commitPage) != []
    ensures h.numCommitsToMain >= 1
    ensures |h.contributionsPerContributor| == h.numContributors
  {
    var main := Listing(snap.commitPage);
    var all := main + MergedPrCommits(snap);
    var credited := CreditAll(Contributors(snap.contributorListing), MergedPrCommits(snap));
    var perContributor := seq(|credited|, i requires 0 <= i < |credited| => snap.totalCommits(credited[i]));
    AM.CallSiteRows(AM.CommitTimes(all));
    History(
      |snap.contributorListing|,
      |Listing(snap.prPage)|,
      |main|,
      AverageLength(Messages(main)).value,
      main[0].authorDate,
      AverageLength(Messages(all)).value,
      perContributor,
      SumInts(perContributor),
      AM.ActivityMatrixOf(AM.CommitTimes(all), 3, 1).value)
  }

  /** The history has one `total_commits` per listed contributor and an
      activity matrix of eight to twenty-two days of 24 hours whose cells add
      up to at most the number of commits. */
  lemma HistoryShape(snap: RepoSnapshot)
    requires ListingsEnd(snap) && Listing(snap.commitPage) != []
    ensures var h := HistoryOf(snap);
      && h.numCommitsToMain > 0
      && |h.contributionsPerContributor| == h.numContributors
      && 8 <= |h.activityMatrix| <= 22
      && (forall d :: 0 <= d < |h.activityMatrix| ==> |h.activityMatrix[d]| == 24)
      && AM.Total(h.activityMatrix) <= h.numCommitsToMain + |MergedPrCommits(snap)|
  {
    var h := HistoryOf(snap);
    var ts := AM.CommitTimes(Listing(snap.commitPage) + MergedPrCommits(snap));
    AM.CallSiteRows(ts);
    AM.ActivityMatrixTotal(ts, 3, 1);
    assert h.activityMatrix == AM.ActivityMatrixOf(ts, 3, 1).value;
  }

  /** Both averages lie between zero and the length of the longest message. */
  lemma HistoryAverages(snap: RepoSnapshot, bound: nat)
    requires ListingsEnd(snap) && Listing(snap.commitPage) != []
    requires forall c :: c in Listing(snap.commitPage) + MergedPrCommits(snap) ==> |c.message| <= bound
    ensures 0.0 <= HistoryOf(snap).averageCommitLengthToMain <= bound as real
    ensures 0.0 <= HistoryOf(snap).averageCommitLength <= bound as real
  {
    var main := Listing(snap.commitPage);
    var all := main + MergedPrCommits(snap);
    assert forall i :: 0 <= i < |main| ==> main[i] in all;
    AverageBounded(Messages(main), bound);
    AverageBounded(Messages(all), bound);
  }

  /** The first part of the accessible branch of `scrape` (lines 66-130):
      the contributor, PR and commit statistics. The averages over the
      default branch's commits divide by zero when it has none. */
  method CommitHistory(snap: RepoSnapshot) returns (r: Result<History>)
    requires ListingsEnd(snap)
    ensures r.Err? <==> Listing(snap.commitPage) == []
    ensures r.Err? ==> r.error == "ZeroDivisionError"
    ensures r.Ok? ==> r.value == HistoryOf(snap)
  {
    var contributors := Contributors(snap.contributorListing);
    var numContributors := |contributors|;

    var prs, prPages := Paginate(snap.prPage);
    var numPrs := |prs|;

    var commits, commitPages := Paginate(snap.commitPage);
    var numCommitsToMain := |commits|;
    var commitMessages := Messages(commits);
    var averageToMain := AverageLength(commitMessages);
    if averageToMain.None? {
      return Err("ZeroDivisionError");
    }
    var latestCommit := commits[0].authorDate;

    commits, commitMessages, contributors := MergePrCommits(commits, commitMessages, contributors, prs, snap.prCommits);
    MessagesAppend(Listing(snap.commitPage), MergedPrCommits(snap));

    AM.CallSiteRows(AM.CommitTimes(commits));
    var activityMatrix := AM.CreateActivityMatrix(commits, 3, 1);
    var averageCommitLength := AverageLength(commitMessages);

    var contributionsPerContributor := seq(|contributors|, i requires 0 <= i < |contributors| => snap.totalCommits(contributors[i]));
    var totalCommits := SumInts(contributionsPerContributor);
    r := Ok(History(numContributors, numPrs, numCommitsToMain, averageToMain.value, latestCommit,
                    averageCommitLength.value, contributionsPerContributor, totalCommits, activityMatrix.value));
  }

  /** The file-tree statistics of `RepoContent`, all over one tree. */
  datatype TreeStats = TreeStats(
    numDockerFiles: nat,
    numPythonFiles: nat,
    numWorkflowFiles: nat,
    hasRequirementsFile: bool,
    hasCloudbuild: bool,
    usingDvc: bool,
    repoSize: real)

  /** The properties of `RepoContent` that `scrape` reads (lines 132-143): a
      fresh inspector whose first property access fetches the tree, and every
      later one reads the cached tree, so all seven statistics describe the
      tree fetched for the repository and branch. */
  method InspectTree(repoApi: string, defaultBranch: string, fetchTree: (string, string) -> seq<TreeEntry>)
    returns (s: TreeStats, fetches: int)
    ensures var tree := fetchTree(repoApi, defaultBranch);
      && s.numDockerFiles == NumDockerFiles(tree)
      && s.numPythonFiles == NumPythonFiles(tree)
      && s.numWorkflowFiles == NumWorkflowFiles(tree)
      && s.hasRequirementsFile == HasRequirementsFile(tree)
      && s.hasCloudbuild == HasCloudbuild(tree)
      && s.usingDvc == UsingDvc(tree)
      && s.repoSize == RepoSizeMb(tree)
    ensures fetches == 1
  {
    var repoContent := new RepoContent(repoApi, defaultBranch);
    fetches := 0;
    var tree, fetched := repoContent.FileTree(fetchTree);
    if fetched { fetches := fetches + 1; }
    var numDockerFiles := NumDockerFiles(tree);
    tree, fetched := repoContent.FileTree(fetchTree);
    if fetched { fetches := fetches + 1; }
    var numPythonFiles := NumPythonFiles(tree);
    tree, fetched := repoContent.FileTree(fetchTree);
    if fetched { fetches := fetches + 1; }
    var numWorkflowFiles := NumWorkflowFiles(tree);
    tree, fetched := repoContent.FileTree(fetchTree);
    if fetched { fetches := fetches + 1; }
    var hasRequirementsFile := HasRequirementsFile(tree);
    tree, fetched := repoContent.FileTree(fetchTree);
    if fetched { fetches := fetches + 1; }
    var hasCloudbuild := HasCloudbuild(tree);
    tree, fetched := repoContent.FileTree(fetchTree);
    if fetched { fetches := fetches + 1; }
    var usingDvc := UsingDvc(tree);
    tree, fetched := repoContent.FileTree(fetchTree);
    if fetched { fetches := fetches + 1; }
    var repoSize := RepoSizeMb(tree);
    s := TreeStats(numDockerFiles, numPythonFiles, numWorkflowFiles, hasRequirementsFile,
                   hasCloudbuild, usingDvc, repoSize);
  }

  /** `num_warnings` of a fresh `Report` (lines 147-152): the warning count
      of the checker's stderr when the report is found with content, `None`
      when the report is missing, and `raised` (a `KeyError`) when the found
      report has no content. */
  method ReportWarnings(repoApi: string, defaultBranch: string, response: ContentsResponse, stderr: string)
    returns (warnings: Option<nat>, raised: bool)
    ensures raised <==> ReportFound(response) && response.content.None?
    ensures warnings == (if ReportFound(response) && response.content.Some?
                         then Some(WarningCount(stderr)) else None)
  {
    var report := new Report(repoApi, defaultBranch);
    warnings, raised := report.CheckAnswers(response, stderr);
  }

  /** Every workflow run of the latest commit completed successfully. */
  predicate AllRunsPass(runs: seq<WorkflowRun>, latestSha: string)
  {
    forall i :: 0 <= i < |runs| && runs[i].headSha == latestSha ==> RunPasses(runs[i])
  }

  /** The statistics record of an accessible repository with API URL `api`
      and default branch `branch`, or the exception that aborts it: no
      default-branch commits divide by zero, and a report found without
      `content` raises `KeyError`. The tree statistics describe the tree of
      `branch`; the warning count is present exactly when the report could be
      written. */
  ghost function StatsOf(snap: RepoSnapshot, api: string, branch: string): (r: Result<RepoStats>)
    requires ListingsEnd(snap)
    ensures r.Err? ==> r.error == "ZeroDivisionError" || r.error == "KeyError"
    ensures r.Ok? ==> Populated(r.value) && (r.value.numWarnings.Some? <==> ReportFound(snap.reportResponse))
  {
    if Listing(snap.commitPage) == [] then Err("ZeroDivisionError")
    else if ReportFound(snap.reportResponse) && snap.reportResponse.content.None? then Err("KeyError")
    else
      var h := HistoryOf(snap);
      var tree := snap.fetchTree(api, branch);
      Ok(RepoStats(
        Some(h.numContributors), Some(h.numPrs), Some(h.numCommitsToMain),
        Some(h.averageCommitLengthToMain), Some(h.latestCommit), Some(h.averageCommitLength),
        Some(h.contributionsPerContributor), Some(h.totalCommits), Some(h.activityMatrix),
        Some(NumDockerFiles(tree)), Some(NumPythonFiles(tree)), Some(NumWorkflowFiles(tree)),
        Some(HasRequirementsFile(tree)), Some(HasCloudbuild(tree)), Some(UsingDvc(tree)),
        Some(RepoSizeMb(tree)), Some(ReadmeLength(snap.readmeText)),
        Some(AllRunsPass(snap.runs, snap.latestSha)),
        if ReportFound(snap.reportResponse)
        then Some(WarningCount(snap.checkerStderr)) else None))
  }

  /** An accessible repository yields a record exactly when its default branch
      has commits and its report is not missing its `content`; the record
      then has every statistic but possibly the warning count, and the
      warning count exactly when a report was found. */
  lemma StatsOfOutcome(snap: RepoSnapshot, api: string, branch: string)
    requires ListingsEnd(snap)
    ensures StatsOf(snap, api, branch).Ok? <==>
      Listing(snap.commitPage) != [] && !(ReportFound(snap.reportResponse) && snap.reportResponse.content.None?)
    ensures StatsOf(snap, api, branch) == Err("KeyError") <==>
      Listing(snap.commitPage) != [] && ReportFound(snap.reportResponse) && snap.reportResponse.content.None?
    ensures StatsOf(snap, api, branch).Ok? ==>
      && Populated(StatsOf(snap, api, branch).value)
      && (StatsOf(snap, api, branch).value.numWarnings.Some? <==>
            ReportFound(snap.reportResponse))
  {
  }

  /** The record that `scrape` assembles from the history, the tree statistics,
      the README length, the actions check and the warning count is the
      expected one when each part is. */
  lemma AssembledStats(snap: RepoSnapshot, api: string, branch: string, h: History, t: TreeStats,
                       readmeLength: nat, actionsPassing: bool, numWarnings: Option<nat>)
    requires ListingsEnd(snap) && Listing(snap.commitPage) != []
    requires !(ReportFound(snap.reportResponse) && snap.reportResponse.content.None?)
    requires h == HistoryOf(snap)
    requires var tree := snap.fetchTree(api, branch);
      && t.numDockerFiles == NumDockerFiles(tree)
      && t.numPythonFiles == NumPythonFiles(tree)
      && t.numWorkflowFiles == NumWorkflowFiles(tree)
      && t.hasRequirementsFile == HasRequirementsFile(tree)
      && t.hasCloudbuild == HasCloudbuild(tree)
      && t.usingDvc == UsingDvc(tree)
      && t.repoSize == RepoSizeMb(tree)
    requires readmeLength == ReadmeLength(snap.readmeText)
    requires actionsPassing == AllRunsPass(snap.runs, snap.latestSha)
    requires numWarnings == (if ReportFound(snap.reportResponse) && snap.reportResponse.content.Some?
                             then Some(WarningCount(snap.checkerStderr)) else None)
    ensures StatsOf(snap, api, branch) == Ok(RepoStats(
      Some(h.numContributors), Some(h.numPrs), Some(h.numCommitsToMain), Some(h.averageCommitLengthToMain),
      Some(h.latestCommit), Some(h.averageCommitLength), Some(h.contributionsPerContributor),
      Some(h.totalCommits), Some(h.activityMatrix),
      Some(t.numDockerFiles), Some(t.numPythonFiles), Some(t.numWorkflowFiles),
      Some(t.hasRequirementsFile), Some(t.hasCloudbuild), Some(t.usingDvc),
      Some(t.repoSize), Some(readmeLength), Some(actionsPassing), numWarnings))
  {
  }

  /** The accessible branch of `scrape` for one group: the repository's
      statistics, or the exception that aborts it — `IndexError` when the
      URL yields no API path, `ZeroDivisionError` when the default branch
      has no commits, `KeyError` when the report response has no content.
      The file-tree statistics share one fetched tree. */
  method AccessibleStats(group: GroupInfo, snap: RepoSnapshot) returns (r: Result<RepoStats>)
    requires ListingsEnd(snap)
    modifies group
    ensures group.repoUrl == old(group.repoUrl) && group.accessibleMemo == old(group.accessibleMemo)
    ensures RepoApi(group.repoUrl).None? ==> r == Err("IndexError")
    ensures RepoApi(group.repoUrl).Some? && Listing(snap.commitPage) == [] ==> r == Err("ZeroDivisionError")
    ensures RepoApi(group.repoUrl).Some? && Listing(snap.commitPage) != [] ==>
      && group.defaultBranchMemo == (if old(group.defaultBranchMemo).Some? then old(group.defaultBranchMemo)
                                     else Some(snap.fetchBranch(RepoApi(group.repoUrl).value)))
      && r == StatsOf(snap, RepoApi(group.repoUrl).value, group.defaultBranchMemo.value)
  {
    var api := RepoApi(group.repoUrl);
    if api.None? {
      return Err("IndexError");
    }
    var history := CommitHistory(snap);
    if history.Err? {
      return Err(history.error);
    }
    var h := history.value;

    var branch, branchFetched := group.DefaultBranch(snap.fetchBranch);
    var b := branch.value;
    assert group.defaultBranchMemo == Some(b);
    var t, fetches := InspectTree(api.value, b, snap.fetchTree);
    var readmeLength := ReadmeLength(snap.readmeText);
    var actionsPassing := ActionsPassing(snap.runs, snap.latestSha);

    branch, branchFetched := group.DefaultBranch(snap.fetchBranch);
    assert branch == Ok(b) && group.defaultBranchMemo == Some(b);
    var numWarnings, raised := ReportWarnings(api.value, b, snap.reportResponse, snap.checkerStderr);
    if raised {
      return Err("KeyError");
    }
    AssembledStats(snap, api.value, b, h, t, readmeLength, actionsPassing, numWarnings);
    r := Ok(RepoStats(
      Some(h.numContributors), Some(h.numPrs), Some(h.numCommitsToMain), Some(h.averageCommitLengthToMain),
      Some(h.latestCommit), Some(h.averageCommitLength), Some(h.contributionsPerContributor),
      Some(h.totalCommits), Some(h.activityMatrix),
      Some(t.numDockerFiles), Some(t.numPythonFiles), Some(t.numWorkflowFiles),
      Some(t.hasRequirementsFile), Some(t.hasCloudbuild), Some(t.usingDvc),
      Some(t.repoSize), Some(readmeLength), Some(actionsPassing), numWarnings));
  }

  /** The body of the loop of `scrape` for one group: the accessibility
      probe (read once for the log line and once for the test, the second
      time from the memo), then the statistics of an accessible repository
      or the all-`None` record. */
  method ScrapeGroup(group: GroupInfo, head: (string, bool) -> Probe, snap: RepoSnapshot)
    returns (r: Result<RepoStats>, accessible: bool)
    requires ListingsEnd(snap)
    modifies group
    ensures group.accessibleMemo == Some(accessible)
    ensures old(group.accessibleMemo).Some? ==> accessible == old(group.accessibleMemo).value
    ensures old(group.accessibleMemo).None? ==> accessible == ProbeAnswer(old(group.repoUrl), head)
    ensures group.repoUrl ==
      (if old(group.accessibleMemo).None? && head(old(group.repoUrl), false).Response?
       then AfterRedirect(old(group.repoUrl), head(old(group.repoUrl), false))
       else old(group.repoUrl))
    ensures !accessible ==> r == Ok(InaccessibleStats())
    ensures accessible && RepoApi(group.repoUrl).None? ==> r == Err("IndexError")
    ensures accessible && RepoApi(group.repoUrl).Some? && Listing(snap.commitPage) == [] ==>
      r == Err("ZeroDivisionError")
    ensures accessible && RepoApi(group.repoUrl).Some? && Listing(snap.commitPage) != [] ==>
      && group.defaultBranchMemo == (if old(group.defaultBranchMemo).Some? then old(group.defaultBranchMemo)
                                     else Some(snap.fetchBranch(RepoApi(group.repoUrl).value)))
      && r == StatsOf(snap, RepoApi(group.repoUrl).value, group.defaultBranchMemo.value)
    ensures accessible && r.Ok? ==> Populated(r.value)
  {
    var logged, _ := group.RepoAccessible(head);
    var probed;
    accessible, probed := group.RepoAccessible(head);
    if accessible {
      r := AccessibleStats(group, snap);
      if RepoApi(group.repoUrl).Some? && Listing(snap.commitPage) != [] {
        StatsOfOutcome(snap, RepoApi(group.repoUrl).value, group.defaultBranchMemo.value);
      }
    } else {
      r := Ok(InaccessibleStats());
    }
  }

  // ---------------------------------------------------------------------------
  // Directory names of `clone`
  // ---------------------------------------------------------------------------

  /** `os.path.join(a, b)` for POSIX paths. */
  function PathJoin(a: string, b: string): (r: string)
    ensures StartsWith(b, "/") ==> r == b
    ensures !StartsWith(b, "/") ==> StartsWith(r, a) && EndsWith(r, b) && |r| <= |a| + 1 + |b|
  {
    if StartsWith(b, "/") then b
    else if a == [] || EndsWith(a, "/") then a + b
    else a + "/" + b
  }

  /** Joining a name without `/` onto a directory makes it the last path
      component. */
  lemma JoinedBasename(a: string, b: string)
    requires '/' !in b
    ensures LastSegment(PathJoin(a, b), '/') == b
  {
    assert !StartsWith(b, "/") by {
      if |b| > 0 { assert b[0] in b; }
    }
    if a == [] {
      NoSepIsOwnSegment(b, '/');
    } else if EndsWith(a, "/") {
      var x := a[..|a| - 1];
      assert a == x + ['/'];
      assert a + b == x + ['/'] + b;
      SegmentAfterSep(x, '/', b);
    } else {
      assert a + "/" + b == a + ['/'] + b;
      SegmentAfterSep(a, '/', b);
    }
  }

  /** `repo_url.split("/")[-1].replace(".git", "")`. */
  function RepoName(url: string): (r: string)
    ensures '/' !in r
    ensures |r| <= |url|
  {
    var last := LastSegment(url, '/');
    var r := RemoveAll(last, ".git");
    assert '/' !in r;
    r
  }

  /** The repository name is computed from the text after the last `/`. */
  lemma RepoNameOfPath(prefix: string, name: string)
    requires '/' !in name
    ensures RepoName(prefix + "/" + name) == RemoveAll(name, ".git")
    ensures !Contains(name, ".git") ==> RepoName(prefix + "/" + name) == name
  {
    assert prefix + "/" + name == prefix + ['/'] + name;
    SegmentAfterSep(prefix, '/', name);
    if !Contains(name, ".git") {
      RemoveAllAbsent(name, ".git");
    }
  }

  /** The text after the last `/` is the last piece of `split("/")`. */
  lemma {:induction false} LastSplitPiece(s: string, sep: char)
    ensures Split(s, sep)[|Split(s, sep)| - 1] == LastSegment(s, sep)
    decreases |s|
  {
    if s != [] {
      LastSplitPiece(s[1..], sep);
      if s[0] == sep {
        LastPieceAfterSep(s, sep);
      } else if sep in s[1..] {
        LastPieceBeforeSep(s, sep);
      } else {
        LastPieceNoSep(s, sep);
      }
    }
  }

  /** The inductive step of `LastSplitPiece` for a leading separator. */
  lemma {:induction false} LastPieceAfterSep(s: string, sep: char)
    requires s != [] && s[0] == sep
    requires Split(s[1..], sep)[|Split(s[1..], sep)| - 1] == LastSegment(s[1..], sep)
    ensures Split(s, sep)[|Split(s, sep)| - 1] == LastSegment(s, sep)
  {
    SplitLeadingSep(s, sep);
    LeadingSeparator(s, sep);
    LastAfterEmpty(Split(s, sep), Split(s[1..], sep), LastSegment(s[1..], sep));
  }

  /** A leading separator splits off an empty first piece. */
  lemma SplitLeadingSep(s: string, sep: char)
    requires s != [] && s[0] == sep
    ensures Split(s, sep) == [[]] + Split(s[1..], sep)
  {
  }

  /** Putting an empty piece in front keeps the last piece. */
  lemma LastAfterEmpty(p: seq<string>, rest: seq<string>, last: string)
    requires |rest| >= 1 && p == [[]] + rest && rest[|rest| - 1] == last
    ensures p[|p| - 1] == last
  {
  }

  /** The inductive step of `LastSplitPiece` for a leading ordinary character
      followed by a separator somewhere. */
  lemma LastPieceBeforeSep(s: string, sep: char)
    requires s != [] && s[0] != sep && sep in s[1..]
    requires Split(s[1..], sep)[|Split(s[1..], sep)| - 1] == LastSegment(s[1..], sep)
    ensures Split(s, sep)[|Split(s, sep)| - 1] == LastSegment(s, sep)
  {
    var t := s[1..];
    var rest := Split(t, sep);
    var p := Split(s, sep);
    SplitLengthAtLeastTwo(t, sep);
    assert p == [[s[0]] + rest[0]] + rest[1..];
    assert p[|p| - 1] == rest[|rest| - 1];
    assert s == [s[0]] + t;
    SegmentOfSuffix([s[0]], t, sep);
  }

  /** The inductive step of `LastSplitPiece` for a string without separator. */
  lemma LastPieceNoSep(s: string, sep: char)
    requires s != [] && s[0] != sep && sep !in s[1..]
    ensures Split(s, sep)[|Split(s, sep)| - 1] == LastSegment(s, sep)
  {
    assert s == [s[0]] + s[1..];
    assert sep !in s;
    SinglePiece(s, sep);
    NoSepIsOwnSegment(s, sep);
  }

  lemma SplitLengthAtLeastTwo(t: string, sep: char)
    requires sep in t
    ensures |Split(t, sep)| >= 2
  {
    SplitLength(t, sep);
    assert sep in multiset(t);
  }

  lemma LeadingSeparator(s: string, sep: char)
    requires s != [] && s[0] == sep
    ensures LastSegment(s, sep) == LastSegment(s[1..], sep)
  {
    var t := s[1..];
    assert s == [sep] + t;
    if sep in t {
      SegmentOfSuffix([sep], t, sep);
    } else {
      NoSepIsOwnSegment(t, sep);
      SegmentAfterSep([], sep, t);
      assert [] + [sep] + t == s;
    }
  }

  lemma SinglePiece(t: string, sep: char)
    requires sep !in t
    ensures Split(t, sep) == [t]
  {
    SplitLength(t, sep);
    assert multiset(t)[sep] == 0;
    JoinSplit(t, sep);
  }

  /** A separator in `t` hides everything before `t`. */
  lemma {:induction false} SegmentOfSuffix(a: string, t: string, sep: char)
    requires sep in t
    ensures LastSegment(a + t, sep) == LastSegment(t, sep)
    decreases |t|
  {
    var s := a + t;
    var last := t[|t| - 1];
    assert s[|s| - 1] == last;
    if last != sep {
      var t' := t[..|t| - 1];
      assert t == t' + [last];
      assert s[..|s| - 1] == a + t';
      assert sep in t';
      SegmentOfSuffix(a, t', sep);
      assert LastSegment(s, sep) == LastSegment(a + t', sep) + [last];
      assert LastSegment(t, sep) == LastSegment(t', sep) + [last];
    }
  }

  /** `os.path.join(base_dir, f"group_{group_number}")`. */
  function GroupDir(baseDir: string, groupNumber: int): (r: string)
    ensures StartsWith(r, baseDir)
  {
    assert !StartsWith("group_" + IntToString(groupNumber), "/") by {
      assert ("group_" + IntToString(groupNumber))[0] == 'g';
    }
    PathJoin(baseDir, "group_" + IntToString(groupNumber))
  }

  /** `os.path.join(group_dir, repo_name)`: the repository is cloned into a
      directory named after it, inside its group's directory. */
  function RepoDir(baseDir: string, groupNumber: int, url: string): (r: string)
    ensures LastSegment(r, '/') == RepoName(url)
  {
    JoinedBasename(GroupDir(baseDir, groupNumber), RepoName(url));
    PathJoin(GroupDir(baseDir, groupNumber), RepoName(url))
  }

  /** The group directory ends in `group_` and the group number. */
  lemma GroupDirName(baseDir: string, groupNumber: int)
    ensures LastSegment(GroupDir(baseDir, groupNumber), '/') == "group_" + IntToString(groupNumber)
  {
    var name := "group_" + IntToString(groupNumber);
    var digits := NatToString(if groupNumber < 0 then -groupNumber else groupNumber);
    assert forall i :: 0 <= i < |digits| ==> digits[i] != '/';
    assert forall i :: 0 <= i < |name| ==> name[i] != '/';
    JoinedBasename(baseDir, name);
  }
}
