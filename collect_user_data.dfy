/** Collection of the profiles of all pull-request authors: the sorted list of distinct
    handles and one user record per handle, with defaults for what the profile lacks. */
module UserCollection {
  import opened Wrappers
  import opened Text
  import opened PrCollection
  import opened Contributions

  // ---------------------------------------------------------------------------
  // sorted(set(...)) of the author handles
  // ---------------------------------------------------------------------------

  /** Strictly increasing in Python's string order: sorted, without duplicates. */
  ghost predicate StrictlyIncreasing(s: seq<string>) {
    forall i, j :: 0 <= i < j < |s| ==> LexLess(s[i], s[j])
  }

  lemma InsertUniqueFront(h: string, t: seq<string>)
    requires StrictlyIncreasing(t)
    requires t != [] && LexLess(h, t[0])
    ensures StrictlyIncreasing([h] + t)
  {
    forall j | 0 < j < |t| + 1 ensures LexLess(([h] + t)[0], ([h] + t)[j]) {
      if j > 1 {
        LexLessTransitive(h, t[0], t[j - 1]);
      }
    }
  }

  lemma InsertUniqueBehind(x: string, rest: seq<string>, h: string, t: seq<string>)
    requires StrictlyIncreasing(t) && t != [] && x == t[0]
    requires StrictlyIncreasing(rest)
    requires LexLess(x, h)
    requires forall y :: y in rest ==> y in t[1..] || y == h
    ensures StrictlyIncreasing([x] + rest)
  {
    forall j | 0 < j < |rest| + 1 ensures LexLess(([x] + rest)[0], ([x] + rest)[j]) {
      var y := rest[j - 1];
      assert y in rest;
      if y != h {
        var k :| 0 <= k < |t[1..]| && t[1..][k] == y;
        assert t[k + 1] == y;
      }
    }
  }

  /** Inserts `h` into the strictly increasing `t`, unless it is there already. */
  function InsertUnique(h: string, t: seq<string>): (r: seq<string>)
    requires StrictlyIncreasing(t)
    ensures StrictlyIncreasing(r)
    ensures forall x :: x in r <==> x in t || x == h
  {
    if t == [] then [h]
    else if h == t[0] then t
    else if LexLess(h, t[0]) then
      InsertUniqueFront(h, t);
      [h] + t
    else
      assert StrictlyIncreasing(t[1..]);
      var rest := InsertUnique(h, t[1..]);
      LexLessTotal(h, t[0]);
      InsertUniqueBehind(t[0], rest, h, t);
      assert t == [t[0]] + t[1..];
      [t[0]] + rest
  }

  /** `sorted(set(hs))`. */
  function SortedDistinct(hs: seq<string>): (r: seq<string>)
    ensures StrictlyIncreasing(r)
    ensures forall x :: x in r <==> x in hs
  {
    if hs == [] then [] else
      assert hs == [hs[0]] + hs[1..];
      InsertUnique(hs[0], SortedDistinct(hs[1..]))
  }

  /** `sorted(set(pr["author_github_handle"] for pr in pr_data))`. */
  function Handles(prData: seq<PrEntry>): (r: seq<string>)
    ensures StrictlyIncreasing(r)
    ensures forall h :: h in r <==> IsAuthor(prData, h)
  {
    var authors := seq(|prData|, i requires 0 <= i < |prData| => prData[i].authorGithubHandle);
    HandleColumnMembership(prData, authors);
    SortedDistinct(authors)
  }

  /** The column of author handles holds exactly the authors. */
  lemma HandleColumnMembership(prData: seq<PrEntry>, authors: seq<string>)
    requires |authors| == |prData|
    requires forall i :: 0 <= i < |prData| ==> authors[i] == prData[i].authorGithubHandle
    ensures forall h :: h in authors <==> IsAuthor(prData, h)
  {
    forall h ensures h in authors <==> IsAuthor(prData, h) {
      if h in authors {
        var i :| 0 <= i < |authors| && authors[i] == h;
        assert prData[i].authorGithubHandle == h;
      }
    }
  }

  /** A strictly increasing sequence is determined by its elements: whatever order the
      authors come in, the list of handles is the same. */
  lemma {:induction false} StrictlyIncreasingUnique(a: seq<string>, b: seq<string>)
    requires StrictlyIncreasing(a) && StrictlyIncreasing(b)
    requires forall x :: x in a <==> x in b
    ensures a == b
  {
    if a != [] {
      assert a[0] in a;  // so b is not empty either
    }
    if b != [] {
      assert b[0] in b;
    }
    if a != [] {
      if a[0] != b[0] {
        // each first element is the least of the common elements
        assert b[0] in a;
        var i :| 0 <= i < |a| && a[i] == b[0];
        assert a[0] in b;
        var j :| 0 <= j < |b| && b[j] == a[0];
        assert LexLess(a[0], b[0]);
        assert LexLess(b[0], a[0]);
        LexLessAsymmetric(a[0], b[0]);
      }
      forall x ensures x in a[1..] <==> x in b[1..] {
        if x in a[1..] {
          var i :| 0 <= i < |a[1..]| && a[1..][i] == x;
          assert LexLess(a[0], x);
          LexLessIrreflexive(x);
          assert x in b;
          assert x != b[0];
          assert b == [b[0]] + b[1..];
        }
        if x in b[1..] {
          var i :| 0 <= i < |b[1..]| && b[1..][i] == x;
          assert LexLess(b[0], x);
          LexLessIrreflexive(x);
          assert x in a;
          assert x != a[0];
          assert a == [a[0]] + a[1..];
        }
      }
      assert StrictlyIncreasing(a[1..]) && StrictlyIncreasing(b[1..]);
      StrictlyIncreasingUnique(a[1..], b[1..]);
      assert a == [a[0]] + a[1..] && b == [b[0]] + b[1..];
    }
  }

  // ---------------------------------------------------------------------------
  // User records
  // ---------------------------------------------------------------------------

  /** A decoded profile of `/users/{handle}`: each key maps to a string, or to `None` for a
      JSON null. */
  type Profile = map<string, Option<string>>

  /** A row of raw_github_users_data.json. */
  datatype UserRecord = UserRecord(githubHandle: string, email: string, name: string, affiliation: string)

  /** `get_user_info`: `fetched` is the outcome of the `gh api` call, `None` when it
      exits with a non-zero status; that case yields the empty profile. */
  function GetUserInfo(fetched: Option<Profile>): (info: Profile)
    ensures fetched.None? ==> info == map[]
    ensures fetched.Some? ==> info == fetched.value
  {
    fetched.GetOr(map[])
  }

  /** `info.get(key) or default`: a present, non-null, non-empty string, else `default`. */
  function FieldOr(info: Profile, key: string, default: string): (r: string)
    ensures r == default || (key in info && info[key] == Some(r) && r != "")
    ensures key in info && info[key].Some? && info[key].value != "" ==> r == info[key].value
    ensures key !in info || info[key] == None || info[key] == Some("") ==> r == default
  {
    if key in info && info[key].Some? && info[key].value != "" then info[key].value else default
  }

  /** The record appended for `handle`; the affiliation comes from the `company` field. */
  function UserRecordFor(handle: string, info: Profile): (u: UserRecord)
    ensures u.githubHandle == handle
    ensures u.email == FieldOr(info, "email", "")
    ensures u.name == FieldOr(info, "name", handle)
    ensures u.affiliation == FieldOr(info, "company", "")
    ensures u.name != "" || handle == ""
  {
    UserRecord(handle, FieldOr(info, "email", ""), FieldOr(info, "name", handle), FieldOr(info, "company", ""))
  }

  /** A failed fetch leaves the handle and all defaults. */
  lemma FailedFetchDefaults(handle: string)
    ensures UserRecordFor(handle, GetUserInfo(None)) == UserRecord(handle, "", handle, "")
  {
  }

  /** The loop over `handles`; `fetch` stands for the `gh api /users/{handle}` call. */
  method CollectUsers(handles: seq<string>, fetch: string -> Option<Profile>)
    returns (users: seq<UserRecord>)
    ensures |users| == |handles|
    ensures forall i :: 0 <= i < |handles| ==>
      users[i] == UserRecordFor(handles[i], GetUserInfo(fetch(handles[i])))
  {
    users := [];
    for i := 0 to |handles|
      invariant |users| == i
      invariant forall k :: 0 <= k < i ==>
        users[k] == UserRecordFor(handles[k], GetUserInfo(fetch(handles[k])))
    {
      var handle := handles[i];
      var info := GetUserInfo(fetch(handle));
      users := users + [UserRecordFor(handle, info)];
    }
  }

  /** The whole of `main` apart from reading and writing files: one record per distinct
      author, in increasing order of handle. */
  method CollectUserData(prData: seq<PrEntry>, fetch: string -> Option<Profile>)
    returns (users: seq<UserRecord>)
    ensures |users| == |Handles(prData)|
    ensures forall i :: 0 <= i < |users| ==> users[i].githubHandle == Handles(prData)[i]
    ensures forall i :: 0 <= i < |users| ==>
      users[i] == UserRecordFor(users[i].githubHandle, GetUserInfo(fetch(users[i].githubHandle)))
  {
    var handles := Handles(prData);
    users := CollectUsers(handles, fetch);
  }

  // ---------------------------------------------------------------------------
  // From the users file to the contributor records
  // ---------------------------------------------------------------------------

  /** A record as `generate_contributions.py` reads it back: every key is present. */
  function AsUserData(u: UserRecord): UserData {
    UserData(u.githubHandle, Some(u.email), Some(u.name), Some(u.affiliation))
  }

  function UserDataRows(users: seq<UserRecord>): (rows: seq<UserData>)
    ensures |rows| == |users|
    ensures forall i :: 0 <= i < |users| ==> rows[i] == AsUserData(users[i])
  {
    seq(|users|, i requires 0 <= i < |users| => AsUserData(users[i]))
  }

  /** With one record per handle, the profile written for a handle is the one the
      contributor record of that handle carries: no defaulting happens a second time. */
  lemma ProfileReachesContributor(users: seq<UserRecord>, i: nat)
    requires i < |users|
    requires forall a, b :: 0 <= a < b < |users| ==> users[a].githubHandle != users[b].githubHandle
    ensures var c := NewContributor(users[i].githubHandle, UserMap(UserDataRows(users)));
      c.email == users[i].email && c.name == users[i].name && c.affiliation == users[i].affiliation
  {
    var rows := UserDataRows(users);
    assert LastWithHandle(rows, i);
  }

  /** The records `CollectUserData` yields have pairwise different handles. */
  lemma CollectedHandlesDistinct(prData: seq<PrEntry>, users: seq<UserRecord>)
    requires |users| == |Handles(prData)|
    requires forall i :: 0 <= i < |users| ==> users[i].githubHandle == Handles(prData)[i]
    ensures forall a, b :: 0 <= a < b < |users| ==> users[a].githubHandle != users[b].githubHandle
  {
    var hs := Handles(prData);
    forall a, b | 0 <= a < b < |users| ensures users[a].githubHandle != users[b].githubHandle {
      LexLessIrreflexive(hs[a]);
    }
  }
}
