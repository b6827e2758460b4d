/** Aggregation of the collected pull requests by author: the user lookup, the
    group-by-author loop, the ranking by pull-request count and the flags of the two CSV
    files. */
module Contributions {
  import opened Wrappers
  import opened Sorting
  import opened PrCollection

  /** A row of raw_github_users_data.json; a field is `None` when its key is missing. */
  datatype UserData = UserData(
    githubHandle: string, email: Option<string>, name: Option<string>, affiliation: Option<string>)

  /** An element of a contributor's `pr_list`. */
  datatype PrRef = PrRef(prUrl: string, prTitle: string, prType: string)

  /** A record of harbor_contribution.json. */
  datatype Contributor = Contributor(
    githubHandle: string, email: string, name: string, affiliation: string,
    prCount: nat, totalAdditions: int, totalDeletions: int, prList: seq<PrRef>)

  // ---------------------------------------------------------------------------
  // User lookup
  // ---------------------------------------------------------------------------

  /** No record after index `i` has the handle of record `i`. */
  ghost predicate LastWithHandle(users: seq<UserData>, i: nat)
    requires i < |users|
  {
    forall j :: i < j < |users| ==> users[j].githubHandle != users[i].githubHandle
  }

  /** `{u["github_handle"]: u for u in user_data}`: one entry per handle, the last record
      with that handle winning. */
  function UserMap(users: seq<UserData>): (m: map<string, UserData>)
    ensures forall i :: 0 <= i < |users| ==> users[i].githubHandle in m
    ensures forall h :: h in m ==> exists i :: 0 <= i < |users| && users[i].githubHandle == h
    ensures forall i :: 0 <= i < |users| && LastWithHandle(users, i) ==> m[users[i].githubHandle] == users[i]
  {
    if users == [] then map[]
    else
      var init := users[..|users| - 1];
      var m := UserMap(init);
      UserMapStepKeys(users, m);
      UserMapStepFrom(users, m);
      UserMapStepLast(users, m);
      m[users[|users| - 1].githubHandle := users[|users| - 1]]
  }

  lemma UserMapStepKeys(users: seq<UserData>, m: map<string, UserData>)
    requires users != []
    requires forall i :: 0 <= i < |users| - 1 ==> users[i].githubHandle in m
    ensures var last := users[|users| - 1];
      forall i :: 0 <= i < |users| ==> users[i].githubHandle in m[last.githubHandle := last]
  {
  }

  lemma UserMapStepFrom(users: seq<UserData>, m: map<string, UserData>)
    requires users != []
    requires forall h :: h in m ==> exists i :: 0 <= i < |users| - 1 && users[i].githubHandle == h
    ensures forall h :: h in m ==> exists i :: 0 <= i < |users| && users[i].githubHandle == h
    ensures exists i :: 0 <= i < |users| && users[i].githubHandle == users[|users| - 1].githubHandle
  {
    var n := |users| - 1;
    assert users[n].githubHandle == users[n].githubHandle;
  }

  lemma UserMapStepLast(users: seq<UserData>, m: map<string, UserData>)
    requires users != []
    requires forall i :: 0 <= i < |users| - 1 ==> users[i].githubHandle in m
    requires forall i :: (0 <= i < |users| - 1 && LastWithHandle(users[..|users| - 1], i)
      ==> m[users[i].githubHandle] == users[i])
    ensures var last := users[|users| - 1]; var m' := m[last.githubHandle := last];
      forall i :: 0 <= i < |users| && LastWithHandle(users, i) ==> m'[users[i].githubHandle] == users[i]
  {
    var n := |users| - 1;
    var last := users[n];
    var m' := m[last.githubHandle := last];
    forall i | 0 <= i < |users| && LastWithHandle(users, i)
      ensures m'[users[i].githubHandle] == users[i]
    {
      if i < n {
        assert users[i].githubHandle != last.githubHandle;
        assert LastWithHandle(users[..n], i) by {
          forall j | i < j < n ensures users[..n][j].githubHandle != users[..n][i].githubHandle {
            assert users[..n][j] == users[j];
          }
        }
      }
    }
  }

  /** A fresh record for `handle`: profile fields from the user lookup with their defaults,
      no pull requests yet. */
  function NewContributor(handle: string, userMap: map<string, UserData>): (c: Contributor)
    ensures c.githubHandle == handle && c.prCount == 0 && c.prList == []
    ensures c.totalAdditions == 0 && c.totalDeletions == 0
    ensures handle !in userMap ==> c.name == handle && c.email == "" && c.affiliation == ""
    ensures handle in userMap && userMap[handle].name.Some? ==> c.name == userMap[handle].name.value
    ensures handle in userMap && userMap[handle].name.None? ==> c.name == handle
    ensures handle in userMap ==> c.email == userMap[handle].email.GetOr("")
    ensures handle in userMap ==> c.affiliation == userMap[handle].affiliation.GetOr("")
  {
    if handle in userMap then
      var info := userMap[handle];
      Contributor(handle, info.email.GetOr(""), info.name.GetOr(handle), info.affiliation.GetOr(""),
                  0, 0, 0, [])
    else
      Contributor(handle, "", handle, "", 0, 0, 0, [])
  }

  // ---------------------------------------------------------------------------
  // What the grouping computes
  // ---------------------------------------------------------------------------

  /** Some pull request of `prs` is by `h`. */
  ghost predicate IsAuthor(prs: seq<PrEntry>, h: string) {
    exists i :: 0 <= i < |prs| && prs[i].authorGithubHandle == h
  }

  /** The pull requests of author `h`, in input order. */
  function PrsBy(prs: seq<PrEntry>, h: string): (r: seq<PrEntry>)
    ensures |r| <= |prs|
    ensures forall i :: 0 <= i < |r| ==> r[i].authorGithubHandle == h
    ensures !IsAuthor(prs, h) ==> r == []
    ensures IsAuthor(prs, h) ==> |r| >= 1
  {
    if prs == [] then []
    else
      var init := prs[..|prs| - 1];
      var last := prs[|prs| - 1];
      assert forall i :: 0 <= i < |init| ==> init[i] == prs[i];
      PrsBy(init, h) + (if last.authorGithubHandle == h then [last] else [])
  }

  /** `PrsBy` keeps exactly the pull requests of `h`. */
  lemma {:induction false} PrsByMembers(prs: seq<PrEntry>, h: string)
    ensures forall pr :: pr in PrsBy(prs, h) <==> pr in prs && pr.authorGithubHandle == h
  {
    if prs != [] {
      var init := prs[..|prs| - 1];
      PrsByMembers(init, h);
      assert prs == init + [prs[|prs| - 1]];
    }
  }

  function SumAdditions(prs: seq<PrEntry>): int {
    if prs == [] then 0 else SumAdditions(prs[..|prs| - 1]) + prs[|prs| - 1].additions
  }

  function SumDeletions(prs: seq<PrEntry>): int {
    if prs == [] then 0 else SumDeletions(prs[..|prs| - 1]) + prs[|prs| - 1].deletions
  }

  function RefOf(pr: PrEntry): PrRef {
    PrRef(pr.prUrl, pr.prTitle, pr.prType)
  }

  function Refs(prs: seq<PrEntry>): (r: seq<PrRef>)
    ensures |r| == |prs|
    ensures forall i :: 0 <= i < |prs| ==> r[i] == RefOf(prs[i])
  {
    seq(|prs|, i requires 0 <= i < |prs| => RefOf(prs[i]))
  }

  /** The record of author `h` once every pull request of `prs` has been added. */
  function Aggregate(prs: seq<PrEntry>, h: string, userMap: map<string, UserData>): (c: Contributor)
    ensures c.githubHandle == h && c.prCount == |PrsBy(prs, h)| == |c.prList|
    ensures c.totalAdditions == SumAdditions(PrsBy(prs, h)) && c.totalDeletions == SumDeletions(PrsBy(prs, h))
    ensures c.name == NewContributor(h, userMap).name && c.email == NewContributor(h, userMap).email
    ensures c.affiliation == NewContributor(h, userMap).affiliation
  {
    var mine := PrsBy(prs, h);
    NewContributor(h, userMap).(
      prCount := |mine|, totalAdditions := SumAdditions(mine),
      totalDeletions := SumDeletions(mine), prList := Refs(mine))
  }

  /** The distinct authors of `prs` in order of first appearance (the key order of the
      `contributors` dictionary). */
  function Authors(prs: seq<PrEntry>): (r: seq<string>)
    ensures forall i, j :: 0 <= i < j < |r| ==> r[i] != r[j]
    ensures forall h :: h in r <==> IsAuthor(prs, h)
  {
    if prs == [] then []
    else
      var init := prs[..|prs| - 1];
      var last := prs[|prs| - 1];
      var a := Authors(init);
      assert forall i :: 0 <= i < |init| ==> init[i] == prs[i];
      if last.authorGithubHandle in a then a else a + [last.authorGithubHandle]
  }
  /** Every pull request of `b` comes after some pull request of `a`: `a` appears first. */
  ghost predicate AppearsBefore(prs: seq<PrEntry>, a: string, b: string) {
    forall q :: 0 <= q < |prs| && prs[q].authorGithubHandle == b ==>
      exists p :: 0 <= p < q && prs[p].authorGithubHandle == a
  }

  /** The keys of `contributors` are in order of first appearance. */
  lemma {:induction false} AuthorsFirstAppearance(prs: seq<PrEntry>)
    ensures forall i, j :: 0 <= i < j < |Authors(prs)| ==> AppearsBefore(prs, Authors(prs)[i], Authors(prs)[j])
  {
    if prs != [] {
      var init := prs[..|prs| - 1];
      var last := prs[|prs| - 1];
      var a := Authors(init);
      AuthorsFirstAppearance(init);
      assert forall k :: 0 <= k < |init| ==> init[k] == prs[k];
      var r := Authors(prs);
      forall i, j | 0 <= i < j < |r| ensures AppearsBefore(prs, r[i], r[j]) {
        AuthorsAppearStep(prs, init, i, j);
      }
    }
  }

  /** One pair of keys in the induction step of `AuthorsFirstAppearance`. */
  lemma AuthorsAppearStep(prs: seq<PrEntry>, init: seq<PrEntry>, i: int, j: int)
    requires prs != [] && init == prs[..|prs| - 1]
    requires forall i, j :: 0 <= i < j < |Authors(init)| ==>
      AppearsBefore(init, Authors(init)[i], Authors(init)[j])
    requires 0 <= i < j < |Authors(prs)|
    ensures AppearsBefore(prs, Authors(prs)[i], Authors(prs)[j])
  {
    var last := prs[|prs| - 1].authorGithubHandle;
    var a := Authors(init);
    var r := Authors(prs);
    assert forall k :: 0 <= k < |init| ==> init[k] == prs[k];
    assert a[i] in a;
    var w :| 0 <= w < |init| && init[w].authorGithubHandle == a[i];
    forall q | 0 <= q < |prs| && prs[q].authorGithubHandle == r[j]
      ensures exists p :: 0 <= p < q && prs[p].authorGithubHandle == r[i]
    {
      if j < |a| {
        assert r[j] == a[j] && r[i] == a[i];
        assert AppearsBefore(init, a[i], a[j]);
        if q < |init| {
          assert init[q].authorGithubHandle == a[j];
          var p :| 0 <= p < q && init[p].authorGithubHandle == a[i];
          assert prs[p].authorGithubHandle == r[i];
        } else {
          assert a[j] in a;
          var q' :| 0 <= q' < |init| && init[q'].authorGithubHandle == a[j];
          var p :| 0 <= p < q' && init[p].authorGithubHandle == a[i];
          assert prs[p].authorGithubHandle == r[i];
        }
      } else {
        assert r == a + [last] && r[j] == last && r[i] == a[i];
        assert prs[w].authorGithubHandle == r[i];
      }
    }
  }


  // ---------------------------------------------------------------------------
  // The grouping loop
  // ---------------------------------------------------------------------------

  /** The update of the loop body: one more pull request for the record `c`. */
  function AddPr(c: Contributor, pr: PrEntry): (d: Contributor)
    ensures d.githubHandle == c.githubHandle && d.name == c.name
    ensures d.email == c.email && d.affiliation == c.affiliation
    ensures d.prCount == c.prCount + 1 && d.prList == c.prList + [RefOf(pr)]
    ensures d.totalAdditions == c.totalAdditions + pr.additions
    ensures d.totalDeletions == c.totalDeletions + pr.deletions
  {
    c.(prCount := c.prCount + 1,
       totalAdditions := c.totalAdditions + pr.additions,
       totalDeletions := c.totalDeletions + pr.deletions,
       prList := c.prList + [RefOf(pr)])
  }

  lemma SumsSnoc(mine: seq<PrEntry>, pr: PrEntry)
    ensures SumAdditions(mine + [pr]) == SumAdditions(mine) + pr.additions
    ensures SumDeletions(mine + [pr]) == SumDeletions(mine) + pr.deletions
    ensures Refs(mine + [pr]) == Refs(mine) + [RefOf(pr)]
  {
    assert (mine + [pr])[..|mine|] == mine;
  }

  lemma PrsBySnoc(prs: seq<PrEntry>, i: nat, h: string)
    requires i < |prs|
    ensures PrsBy(prs[..i + 1], h)
         == PrsBy(prs[..i], h) + (if prs[i].authorGithubHandle == h then [prs[i]] else [])
  {
    var ext := prs[..i + 1];
    assert ext[..|ext| - 1] == prs[..i];
    assert ext[|ext| - 1] == prs[i];
  }

  /** Taking one more pull request into account changes only its author's record. */
  lemma AggregateStep(prs: seq<PrEntry>, i: nat, h: string, userMap: map<string, UserData>)
    requires i < |prs|
    ensures Aggregate(prs[..i + 1], h, userMap)
         == if prs[i].authorGithubHandle == h then AddPr(Aggregate(prs[..i], h, userMap), prs[i])
            else Aggregate(prs[..i], h, userMap)
  {
    var mine := PrsBy(prs[..i], h);
    PrsBySnoc(prs, i, h);
    if prs[i].authorGithubHandle == h {
      assert PrsBy(prs[..i + 1], h) == mine + [prs[i]];
      SumsSnoc(mine, prs[i]);
    } else {
      assert mine + [] == mine;
      assert PrsBy(prs[..i + 1], h) == mine;
    }
  }

  lemma AuthorsStep(prs: seq<PrEntry>, i: nat)
    requires i < |prs|
    ensures Authors(prs[..i + 1])
         == if prs[i].authorGithubHandle in Authors(prs[..i]) then Authors(prs[..i])
            else Authors(prs[..i]) + [prs[i].authorGithubHandle]
  {
    assert prs[..i + 1][..i] == prs[..i];
    assert prs[..i + 1][i] == prs[i];
  }

  /** An author not seen yet has the fresh record. */
  lemma AggregateFresh(prs: seq<PrEntry>, h: string, userMap: map<string, UserData>)
    requires h !in Authors(prs)
    ensures Aggregate(prs, h, userMap) == NewContributor(h, userMap)
  {
    assert PrsBy(prs, h) == [];
  }

  /** `order` and `contributors` are what the loop holds after the pull requests `prs`. */
  ghost predicate Grouped(prs: seq<PrEntry>, userMap: map<string, UserData>,
                          order: seq<string>, contributors: map<string, Contributor>)
  {
    && order == Authors(prs)
    && contributors.Keys == (set h | h in order)
    && (forall h :: h in contributors ==> contributors[h] == Aggregate(prs, h, userMap))
  }

  /** One iteration of the loop keeps `Grouped`. */
  lemma GroupStep(prData: seq<PrEntry>, i: nat, userMap: map<string, UserData>,
                  order: seq<string>, contributors: map<string, Contributor>)
    requires i < |prData|
    requires Grouped(prData[..i], userMap, order, contributors)
    ensures var handle := prData[i].authorGithubHandle;
      var seen := if handle in contributors then contributors
                  else contributors[handle := NewContributor(handle, userMap)];
      var order' := if handle in contributors then order else order + [handle];
      Grouped(prData[..i + 1], userMap, order', seen[handle := AddPr(seen[handle], prData[i])])
  {
    var handle := prData[i].authorGithubHandle;
    var seen := if handle in contributors then contributors
                else contributors[handle := NewContributor(handle, userMap)];
    var order' := if handle in contributors then order else order + [handle];
    var after := seen[handle := AddPr(seen[handle], prData[i])];
    AuthorsStep(prData, i);
    GroupStepKeys(order, contributors, handle, NewContributor(handle, userMap), AddPr(seen[handle], prData[i]));
    GroupStepValues(prData, i, userMap, contributors);
  }

  lemma GroupStepKeys(order: seq<string>, contributors: map<string, Contributor>, handle: string,
                      created: Contributor, updated: Contributor)
    requires contributors.Keys == (set h | h in order)
    ensures var seen := if handle in contributors then contributors else contributors[handle := created];
      var order' := if handle in contributors then order else order + [handle];
      seen[handle := updated].Keys == (set h | h in order')
  {
  }

  lemma GroupStepValues(prData: seq<PrEntry>, i: nat, userMap: map<string, UserData>,
                        contributors: map<string, Contributor>)
    requires i < |prData|
    requires forall h :: h in contributors ==> contributors[h] == Aggregate(prData[..i], h, userMap)
    requires prData[i].authorGithubHandle !in contributors ==> prData[i].authorGithubHandle !in Authors(prData[..i])
    ensures var handle := prData[i].authorGithubHandle;
      var seen := if handle in contributors then contributors
                  else contributors[handle := NewContributor(handle, userMap)];
      var after := seen[handle := AddPr(seen[handle], prData[i])];
      forall h :: h in after ==> after[h] == Aggregate(prData[..i + 1], h, userMap)
  {
    var handle := prData[i].authorGithubHandle;
    if handle !in contributors {
      AggregateFresh(prData[..i], handle, userMap);
    }
    var seen := if handle in contributors then contributors
                else contributors[handle := NewContributor(handle, userMap)];
    var after := seen[handle := AddPr(seen[handle], prData[i])];
    forall h | h in after
      ensures after[h] == Aggregate(prData[..i + 1], h, userMap)
    {
      AggregateStep(prData, i, h, userMap);
    }
  }

  /** The loop over `pr_data` that fills the `contributors` dictionary. The dictionary is
      `contributors` together with `order`, its key order. */
  method GroupByAuthor(prData: seq<PrEntry>, userMap: map<string, UserData>)
    returns (order: seq<string>, contributors: map<string, Contributor>)
    ensures order == Authors(prData)
    ensures forall i, j :: 0 <= i < j < |order| ==> AppearsBefore(prData, order[i], order[j])
    ensures contributors.Keys == (set h | h in order)
    ensures forall h :: h in contributors ==> contributors[h] == Aggregate(prData, h, userMap)
  {
    order := [];
    contributors := map[];
    for i := 0 to |prData|
      invariant Grouped(prData[..i], userMap, order, contributors)
    {
      GroupStep(prData, i, userMap, order, contributors);
      var pr := prData[i];
      var handle := pr.authorGithubHandle;
      if handle !in contributors {
        contributors := contributors[handle := NewContributor(handle, userMap)];
        order := order + [handle];
      }
      ghost var seen := contributors;
      var c := contributors[handle];
      contributors := contributors[handle := AddPr(c, pr)];
      assert contributors == seen[handle := AddPr(seen[handle], prData[i])];
    }
    assert prData[..|prData|] == prData;
    AuthorsFirstAppearance(prData);
  }

  // ---------------------------------------------------------------------------
  // Ranking
  // ---------------------------------------------------------------------------

  /** `contributors.values()`: the records in key order. */
  function ValuesInOrder(order: seq<string>, contributors: map<string, Contributor>): (r: seq<Contributor>)
    requires forall h :: h in order ==> h in contributors
    ensures |r| == |order|
    ensures forall k :: 0 <= k < |order| ==> r[k] == contributors[order[k]]
  {
    seq(|order|, k requires 0 <= k < |order| => contributors[order[k]])
  }

  /** The records that the grouping produces for the authors `hs`, in that order. */
  function ContributorsFor(hs: seq<string>, prs: seq<PrEntry>, userMap: map<string, UserData>): (r: seq<Contributor>)
    ensures |r| == |hs|
    ensures forall k :: 0 <= k < |hs| ==> r[k] == Aggregate(prs, hs[k], userMap)
  {
    if hs == [] then [] else [Aggregate(prs, hs[0], userMap)] + ContributorsFor(hs[1..], prs, userMap)
  }

  /** Sort key of `sorted(..., key=pr_count, reverse=True)`. */
  function NegPrCount(c: Contributor): int {
    -(c.prCount as int)
  }

  function Handle(c: Contributor): string {
    c.githubHandle
  }

  /** `sorted(contributors.values(), key=lambda x: x["pr_count"], reverse=True)`. */
  function Rank(cs: seq<Contributor>): (r: seq<Contributor>)
    ensures multiset(r) == multiset(cs)
    ensures forall i, j :: 0 <= i < j < |r| ==> r[i].prCount >= r[j].prCount
    ensures forall n :: WithKey(r, NegPrCount, n) == WithKey(cs, NegPrCount, n)
  {
    SortByStableAll(cs, NegPrCount);
    var r := SortBy(cs, NegPrCount);
    assert forall i, j :: 0 <= i < j < |r| ==> NegPrCount(r[i]) <= NegPrCount(r[j]);
    r
  }

  function SumPrCounts(cs: seq<Contributor>): int {
    if cs == [] then 0 else cs[0].prCount + SumPrCounts(cs[1..])
  }

  lemma {:induction false} InsertSumPrCounts(x: Contributor, t: seq<Contributor>)
    ensures SumPrCounts(Insert(x, t, NegPrCount)) == x.prCount + SumPrCounts(t)
  {
    if t != [] && NegPrCount(t[0]) < NegPrCount(x) {
      var rest := Insert(x, t[1..], NegPrCount);
      assert ([t[0]] + rest)[1..] == rest;
      InsertSumPrCounts(x, t[1..]);
    } else if t != [] {
      assert ([x] + t)[1..] == t;
    } else {
      assert [x][1..] == [];
    }
  }

  /** Ranking neither loses nor adds pull requests. */
  lemma {:induction false} RankKeepsTotal(cs: seq<Contributor>)
    ensures SumPrCounts(SortBy(cs, NegPrCount)) == SumPrCounts(cs)
  {
    if cs != [] {
      RankKeepsTotal(cs[1..]);
      InsertSumPrCounts(cs[0], SortBy(cs[1..], NegPrCount));
    }
  }

  /** Sum over the authors `hs` of their numbers of pull requests. */
  function CountFor(hs: seq<string>, prs: seq<PrEntry>): int {
    if hs == [] then 0 else |PrsBy(prs, hs[0])| + CountFor(hs[1..], prs)
  }

  lemma {:induction false} SumPrCountsFor(hs: seq<string>, prs: seq<PrEntry>, userMap: map<string, UserData>)
    ensures SumPrCounts(ContributorsFor(hs, prs, userMap)) == CountFor(hs, prs)
  {
    if hs != [] {
      var r := ContributorsFor(hs, prs, userMap);
      assert r[1..] == ContributorsFor(hs[1..], prs, userMap);
      SumPrCountsFor(hs[1..], prs, userMap);
    }
  }

  lemma {:induction false} CountForAppend(hs: seq<string>, h: string, prs: seq<PrEntry>)
    ensures CountFor(hs + [h], prs) == CountFor(hs, prs) + |PrsBy(prs, h)|
  {
    if hs == [] {
      assert [h][1..] == [];
    } else {
      assert (hs + [h])[1..] == hs[1..] + [h];
      CountForAppend(hs[1..], h, prs);
    }
  }

  /** Adding one pull request adds one to the count of its author, if listed in `hs`. */
  lemma {:induction false} CountForSnoc(hs: seq<string>, init: seq<PrEntry>, pr: PrEntry)
    requires forall i, j :: 0 <= i < j < |hs| ==> hs[i] != hs[j]
    ensures CountFor(hs, init + [pr])
         == CountFor(hs, init) + (if pr.authorGithubHandle in hs then 1 else 0)
  {
    var prs := init + [pr];
    assert prs[..|prs| - 1] == init;
    if hs != [] {
      CountForSnoc(hs[1..], init, pr);
      assert pr.authorGithubHandle in hs <==> pr.authorGithubHandle == hs[0] || pr.authorGithubHandle in hs[1..];
      if pr.authorGithubHandle == hs[0] {
        assert hs[0] !in hs[1..];
      }
    }
  }

  /** The `pr_count` values of all contributors add up to `len(pr_data)`. */
  lemma {:induction false} TotalPrCount(prs: seq<PrEntry>)
    ensures CountFor(Authors(prs), prs) == |prs|
  {
    if prs != [] {
      var init := prs[..|prs| - 1];
      var pr := prs[|prs| - 1];
      assert prs == init + [pr];
      var a := Authors(init);
      TotalPrCount(init);
      CountForSnoc(a, init, pr);
      if pr.authorGithubHandle !in a {
        CountForAppend(a, pr.authorGithubHandle, prs);
        assert PrsBy(prs, pr.authorGithubHandle) == PrsBy(init, pr.authorGithubHandle) + [pr];
        assert PrsBy(init, pr.authorGithubHandle) == [];
      }
    }
  }

  // ---------------------------------------------------------------------------
  // The two CSV files
  // ---------------------------------------------------------------------------

  /** `any(pr["pr_type"] == "adapter" for pr in prs)`. */
  function AnyAdapter(prs: seq<PrRef>): (b: bool)
    ensures b <==> exists i :: 0 <= i < |prs| && prs[i].prType == "adapter"
  {
    if prs == [] then false
    else prs[0].prType == "adapter" || (assert forall i :: 0 <= i < |prs| - 1 ==> prs[1..][i] == prs[i + 1]; AnyAdapter(prs[1..]))
  }

  /** `any(pr["pr_type"] != "adapter" for pr in prs)`. */
  function AnyNonAdapter(prs: seq<PrRef>): (b: bool)
    ensures b <==> exists i :: 0 <= i < |prs| && prs[i].prType != "adapter"
  {
    if prs == [] then false
    else prs[0].prType != "adapter" || (assert forall i :: 0 <= i < |prs| - 1 ==> prs[1..][i] == prs[i + 1]; AnyNonAdapter(prs[1..]))
  }

  /** A row of contributors_ready_to_show.csv. */
  datatype ShowRow = ShowRow(githubHandle: string, name: string, hasAdapterPr: bool, hasNonAdapterPr: bool)

  /** A row of contributors.csv. */
  datatype ContactRow = ContactRow(
    githubHandler: string, name: string, affiliation: string, email: string, isAdapterContributor: bool)

  function ShowRowOf(c: Contributor): (row: ShowRow)
    ensures row.githubHandle == c.githubHandle && row.name == c.name
    ensures row.hasAdapterPr <==> exists i :: 0 <= i < |c.prList| && c.prList[i].prType == "adapter"
    ensures row.hasNonAdapterPr <==> exists i :: 0 <= i < |c.prList| && c.prList[i].prType != "adapter"
    ensures c.prList != [] ==> row.hasAdapterPr || row.hasNonAdapterPr
  {
    ShowRow(c.githubHandle, c.name, AnyAdapter(c.prList), AnyNonAdapter(c.prList))
  }

  function ContactRowOf(c: Contributor): (row: ContactRow)
    ensures row.githubHandler == c.githubHandle && row.name == c.name
    ensures row.affiliation == c.affiliation && row.email == c.email
    ensures row.isAdapterContributor == ShowRowOf(c).hasAdapterPr
  {
    ContactRow(c.githubHandle, c.name, c.affiliation, c.email, AnyAdapter(c.prList))
  }

  // ---------------------------------------------------------------------------
  // The whole of `main`, apart from reading and writing files
  // ---------------------------------------------------------------------------

  /** The ranked list that `main` writes, as a function of its two input files. */
  function Ranked(prData: seq<PrEntry>, userData: seq<UserData>): (r: seq<Contributor>)
    ensures multiset(r) == multiset(ContributorsFor(Authors(prData), prData, UserMap(userData)))
    ensures forall i, j :: 0 <= i < j < |r| ==> r[i].prCount >= r[j].prCount
  {
    Rank(ContributorsFor(Authors(prData), prData, UserMap(userData)))
  }

  /** `c` is the record the grouping makes for one of the authors of `prs`. */
  ghost predicate AuthorRecord(c: Contributor, prs: seq<PrEntry>, userMap: map<string, UserData>) {
    && c.githubHandle in Authors(prs)
    && c == Aggregate(prs, c.githubHandle, userMap)
    && |c.prList| == c.prCount >= 1
  }

  lemma GroupedRecords(prs: seq<PrEntry>, userMap: map<string, UserData>)
    ensures forall c :: c in ContributorsFor(Authors(prs), prs, userMap) ==> AuthorRecord(c, prs, userMap)
  {
    var order := Authors(prs);
    var values := ContributorsFor(order, prs, userMap);
    forall c | c in values ensures AuthorRecord(c, prs, userMap) {
      var k :| 0 <= k < |values| && values[k] == c;
      assert order[k] in order;
    }
  }

  /** One ranked record per distinct author, no author twice. */
  lemma RankedDistinct(prData: seq<PrEntry>, userData: seq<UserData>)
    ensures |Ranked(prData, userData)| == |Authors(prData)|
    ensures DistinctBy(Ranked(prData, userData), Handle)
  {
    var values := ContributorsFor(Authors(prData), prData, UserMap(userData));
    assert DistinctBy(values, Handle);
    SortByKeepsDistinct(values, NegPrCount, Handle);
  }

  /** Each ranked record is the aggregate of the pull requests of its author. */
  lemma RankedRecords(prData: seq<PrEntry>, userData: seq<UserData>)
    ensures forall c :: c in Ranked(prData, userData) ==> AuthorRecord(c, prData, UserMap(userData))
  {
    var userMap := UserMap(userData);
    var values := ContributorsFor(Authors(prData), prData, userMap);
    GroupedRecords(prData, userMap);
    forall c | c in Rank(values) ensures AuthorRecord(c, prData, userMap) {
      assert c in multiset(values);
    }
  }

  /** Nothing is lost or counted twice: the counts add up to the number of pull requests. */
  lemma RankedTotal(prData: seq<PrEntry>, userData: seq<UserData>)
    ensures SumPrCounts(Ranked(prData, userData)) == |prData|
  {
    var userMap := UserMap(userData);
    var values := ContributorsFor(Authors(prData), prData, userMap);
    SumPrCountsFor(Authors(prData), prData, userMap);
    TotalPrCount(prData);
    RankKeepsTotal(values);
  }

  /** Every ranked contributor has an adapter pull request or another one (or both), so
      each lands in at least one group of the contributors page. */
  lemma RankedFlags(prData: seq<PrEntry>, userData: seq<UserData>)
    ensures forall c :: c in Ranked(prData, userData) ==>
      ShowRowOf(c).hasAdapterPr || ShowRowOf(c).hasNonAdapterPr
  {
    RankedRecords(prData, userData);
  }

  /** The whole of `main` apart from reading and writing files: group, then rank. */
  method GenerateContributions(prData: seq<PrEntry>, userData: seq<UserData>)
    returns (ranked: seq<Contributor>)
    ensures ranked == Ranked(prData, userData)
    ensures forall i, j :: 0 <= i < j < |ranked| ==> ranked[i].prCount >= ranked[j].prCount
    ensures forall n :: WithKey(ranked, NegPrCount, n)
                     == WithKey(ContributorsFor(Authors(prData), prData, UserMap(userData)), NegPrCount, n)
  {
    var userMap := UserMap(userData);
    var order, contributors := GroupByAuthor(prData, userMap);
    var values := ValuesInOrder(order, contributors);
    assert forall k :: 0 <= k < |order| ==> order[k] in contributors;
    assert values == ContributorsFor(order, prData, userMap);
    ranked := Rank(values);
  }
}
