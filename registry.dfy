/** The registry page: the datasets returned by the `dataset` query, featured datasets
    first, and the card shown for each. */
module Registry {
  import opened Wrappers
  import opened Sorting

  /** The one element of the `dataset_task(count)` aggregate; `None` is a null count. */
  datatype TaskAggregate = TaskAggregate(count: Option<int>)

  /** A row of the `dataset` table joined with its task aggregate. */
  datatype Dataset = Dataset(
    name: string,
    version: string,
    description: Option<string>,
    createdAt: string,
    datasetTask: seq<TaskAggregate>)

  /** What the query returns: rows (already ordered by `created_at`, newest first) or
      `None` for null data, and an optional error. */
  datatype QueryResponse = QueryResponse(data: Option<seq<Dataset>>, error: Option<string>)

  const FeaturedDatasets: seq<string> := ["terminal-bench", "swebench-verified"]

  /** `Array.prototype.indexOf`: the first index of `x` in `s`, or -1. */
  function IndexOf(s: seq<string>, x: string): (r: int)
    ensures -1 <= r < |s|
    ensures r == -1 <==> x !in s
    ensures 0 <= r ==> s[r] == x && x !in s[..r]
  {
    if s == [] then -1
    else if s[0] == x then 0
    else
      var i := IndexOf(s[1..], x);
      assert s == [s[0]] + s[1..];
      if i == -1 then -1
      else
        assert s[..i + 1] == [s[0]] + s[1..][..i];
        i + 1
  }

  /** The comparator handed to `sort`, as written. */
  function FeaturedCompare(a: Dataset, b: Dataset): (r: int)
    ensures a.name in FeaturedDatasets && b.name !in FeaturedDatasets ==> r < 0
    ensures a.name !in FeaturedDatasets && b.name in FeaturedDatasets ==> r > 0
    ensures a.name !in FeaturedDatasets && b.name !in FeaturedDatasets ==> r == 0
    ensures a.name in FeaturedDatasets && b.name in FeaturedDatasets ==>
      r == IndexOf(FeaturedDatasets, a.name) - IndexOf(FeaturedDatasets, b.name)
  {
    var aIndex := IndexOf(FeaturedDatasets, a.name);
    var bIndex := IndexOf(FeaturedDatasets, b.name);
    if aIndex != -1 && bIndex != -1 then aIndex - bIndex
    else if aIndex != -1 then -1
    else if bIndex != -1 then 1
    else 0
  }

  /** The sort key the comparator orders by: the position in the featured list, and one
      shared position behind it for every dataset that is not featured. */
  function FeaturedRank(d: Dataset): (r: int)
    ensures 0 <= r <= |FeaturedDatasets|
    ensures r < |FeaturedDatasets| <==> d.name in FeaturedDatasets
    ensures r < |FeaturedDatasets| ==> FeaturedDatasets[r] == d.name
  {
    var i := IndexOf(FeaturedDatasets, d.name);
    if i == -1 then |FeaturedDatasets| else i
  }

  /** The comparator is a comparison of ranks: its sign is that of the rank difference.
      It is therefore a consistent comparator, and a stable sort by it is the stable
      sort by `FeaturedRank`. */
  lemma CompareIsRankOrder(a: Dataset, b: Dataset)
    ensures FeaturedCompare(a, b) < 0 <==> FeaturedRank(a) < FeaturedRank(b)
    ensures FeaturedCompare(a, b) == 0 <==> FeaturedRank(a) == FeaturedRank(b)
    ensures FeaturedCompare(a, b) > 0 <==> FeaturedRank(a) > FeaturedRank(b)
  {
  }

  /** `getDatasets`: nothing when the query fails or returns no data, else the rows
      stably sorted with featured datasets first. */
  function GetDatasets(response: QueryResponse): (r: seq<Dataset>)
    ensures response.error.Some? || response.data.None? ==> r == []
    ensures response.error.None? && response.data.Some? ==>
      multiset(r) == multiset(response.data.value)
    ensures SortedBy(r, FeaturedRank)
  {
    if response.error.Some? || response.data.None? then []
    else SortBy(response.data.value, FeaturedRank)
  }

  /** The rows `getDatasets` sorts: the data of a successful query, otherwise none. */
  function Rows(response: QueryResponse): seq<Dataset> {
    if response.error.Some? || response.data.None? then [] else response.data.value
  }

  /** Every featured dataset comes before every other one, and featured datasets come in
      the order of the featured list. */
  lemma FeaturedFirst(response: QueryResponse, i: int, j: int)
    requires 0 <= i < j < |GetDatasets(response)|
    ensures GetDatasets(response)[j].name in FeaturedDatasets ==>
      GetDatasets(response)[i].name in FeaturedDatasets
    ensures GetDatasets(response)[i].name in FeaturedDatasets && GetDatasets(response)[j].name in FeaturedDatasets ==>
      IndexOf(FeaturedDatasets, GetDatasets(response)[i].name) <= IndexOf(FeaturedDatasets, GetDatasets(response)[j].name)
  {
    var r := GetDatasets(response);
    assert FeaturedRank(r[i]) <= FeaturedRank(r[j]);
  }

  /** The sort is stable: the datasets that are not featured keep the query's order
      (newest first), and so do the versions of one featured dataset. */
  lemma GetDatasetsStable(response: QueryResponse, k: int)
    ensures WithKey(GetDatasets(response), FeaturedRank, k) == WithKey(Rows(response), FeaturedRank, k)
  {
    if response.error.None? && response.data.Some? {
      SortByStable(response.data.value, FeaturedRank, k);
    }
  }

  /** Whatever stable sort the engine uses, the page shows the same order: any
      arrangement of the rows sorted by rank and stable within each rank is the result. */
  lemma GetDatasetsUnique(response: QueryResponse, q: seq<Dataset>)
    requires SortedBy(q, FeaturedRank)
    requires forall k :: WithKey(q, FeaturedRank, k) == WithKey(Rows(response), FeaturedRank, k)
    ensures q == GetDatasets(response)
  {
    forall k ensures WithKey(q, FeaturedRank, k) == WithKey(GetDatasets(response), FeaturedRank, k) {
      GetDatasetsStable(response, k);
    }
    StableSortUnique(q, GetDatasets(response), FeaturedRank);
  }

  lemma SortPair<T>(a: T, v: T, key: T -> int)
    requires key(v) < key(a)
    ensures SortBy([a, v], key) == [v, a]
  {
    assert [a, v][1..] == [v];
    assert SortBy([v], key) == [v];
    InsertBehind(a, [v], key);
  }

  lemma SortTail<T>(t: T, a: T, v: T, key: T -> int)
    requires key(t) < key(v) < key(a)
    ensures SortBy([t, a, v], key) == [t, v, a]
  {
    assert [t, a, v][1..] == [a, v];
    SortPair(a, v, key);
    InsertFront(t, [v, a], key);
  }

  lemma InsertSecond<T>(z: T, v: T, a: T, key: T -> int)
    requires key(v) < key(z) && key(z) == key(a)
    ensures Insert(z, [v, a], key) == [v, z, a]
  {
    assert [v, a][1..] == [a];
    InsertFront(z, [a], key);
    InsertBehind(z, [v, a], key);
  }

  lemma InsertLast<T>(z: T, t: T, a: T, v: T, key: T -> int)
    requires key(t) < key(v) < key(z) && key(z) == key(a)
    ensures Insert(z, [t, v, a], key) == [t, v, z, a]
  {
    assert [t, v, a][1..] == [v, a];
    InsertSecond(z, v, a, key);
    InsertBehind(z, [t, v, a], key);
  }

  lemma SortFour<T>(z: T, t: T, a: T, v: T, key: T -> int)
    requires key(t) < key(v) < key(z) && key(z) == key(a)
    ensures SortBy([z, t, a, v], key) == [t, v, z, a]
  {
    assert [z, t, a, v][1..] == [t, a, v];
    SortTail(t, a, v, key);
    InsertLast(z, t, a, v, key);
  }

  /** Featured datasets move to the front in list order; the rest keep their order. */
  lemma SortExample(z: Dataset, t: Dataset, a: Dataset, v: Dataset)
    requires z.name !in FeaturedDatasets && a.name !in FeaturedDatasets
    requires t.name == "terminal-bench" && v.name == "swebench-verified"
    ensures GetDatasets(QueryResponse(Some([z, t, a, v]), None)) == [t, v, z, a]
  {
    assert FeaturedRank(t) == 0 && FeaturedRank(v) == 1;
    SortFour(z, t, a, v, FeaturedRank);
  }

  // ---------------------------------------------------------------------------
  // The cards
  // ---------------------------------------------------------------------------

  /** `dataset.dataset_task[0]?.count ?? 0`. */
  function TaskCount(d: Dataset): (n: int)
    ensures d.datasetTask == [] || d.datasetTask[0].count.None? ==> n == 0
    ensures d.datasetTask != [] && d.datasetTask[0].count.Some? ==> n == d.datasetTask[0].count.value
  {
    if d.datasetTask != [] && d.datasetTask[0].count.Some? then d.datasetTask[0].count.value else 0
  }

  /** `dataset.description || "No description available"`. */
  function DescriptionText(d: Dataset): (t: string)
    ensures t != ""
    ensures d.description.Some? && d.description.value != "" ==> t == d.description.value
    ensures d.description.None? || d.description.value == "" ==> t == "No description available"
  {
    if d.description.Some? && d.description.value != "" then d.description.value
    else "No description available"
  }

  const RunPrefix: string := "harbor run -d "

  /** The command shown in the card's code block. */
  function RunCommand(d: Dataset): (cmd: string)
    ensures |cmd| == |RunPrefix| + |d.name| + 1 + |d.version|
    ensures cmd[..|RunPrefix|] == RunPrefix
    ensures cmd[|RunPrefix|..] == d.name + "@" + d.version
  {
    RunPrefix + d.name + "@" + d.version
  }

  /** The index of the first `c` in `s`, or `|s|`. Unlike `IndexOf`, which models
      JavaScript's `indexOf` and its -1, this search belongs to the reading of a command
      back into its parts, where an index of `|s|` for "not found" keeps every slice of
      `s` at that index well defined. */
  function FirstIndex(s: string, c: char): (i: nat)
    ensures i <= |s|
    ensures c !in s[..i]
    ensures i < |s| ==> s[i] == c
  {
    if s == [] then 0
    else if s[0] == c then 0
    else
      var i := FirstIndex(s[1..], c);
      assert s[..i + 1] == [s[0]] + s[1..][..i];
      i + 1
  }

  /** Reads the dataset reference back out of a run command. */
  function ParseRunCommand(cmd: string): Option<(string, string)> {
    if |cmd| < |RunPrefix| || cmd[..|RunPrefix|] != RunPrefix then None
    else
      var rest := cmd[|RunPrefix|..];
      var i := FirstIndex(rest, '@');
      if i == |rest| then None else Some((rest[..i], rest[i + 1..]))
  }

  lemma {:induction false} FirstIndexAfter(a: string, c: char, b: string)
    requires c !in a
    ensures FirstIndex(a + [c] + b, c) == |a|
  {
    if a != [] {
      assert (a + [c] + b)[1..] == a[1..] + [c] + b;
      FirstIndexAfter(a[1..], c, b);
    }
  }

  /** The command names exactly the dataset of the card, as long as the name has no '@'. */
  lemma RunCommandRoundTrip(d: Dataset)
    requires '@' !in d.name
    ensures ParseRunCommand(RunCommand(d)) == Some((d.name, d.version))
  {
    var cmd := RunCommand(d);
    assert cmd[..|RunPrefix|] == RunPrefix;
    var rest := cmd[|RunPrefix|..];
    assert rest == d.name + ['@'] + d.version;
    FirstIndexAfter(d.name, '@', d.version);
    assert rest[..|d.name|] == d.name;
    assert rest[|d.name| + 1..] == d.version;
  }

  /** What one card shows. */
  datatype DatasetCard = DatasetCard(
    key: string,
    title: string,
    badge: string,
    description: string,
    command: string,
    taskCount: int)

  /** The card of one dataset: its title, version badge, description, run command and
      task count. */
  function CardOf(d: Dataset): (c: DatasetCard)
    ensures c.key == d.name + ":" + d.version && c.title == d.name && c.badge == "v" + d.version
    ensures c.description == DescriptionText(d) && c.command == RunCommand(d)
    ensures c.taskCount == TaskCount(d)
  {
    DatasetCard(d.name + ":" + d.version, d.name, "v" + d.version, DescriptionText(d), RunCommand(d), TaskCount(d))
  }

  /** The page body: the empty-state card or the grid of dataset cards. */
  datatype RegistryView = NoDatasets | Grid(cards: seq<DatasetCard>)

  function RegistryPage(response: QueryResponse): (v: RegistryView)
    ensures v.NoDatasets? <==> GetDatasets(response) == []
    ensures v.Grid? ==> |v.cards| == |GetDatasets(response)|
    ensures v.Grid? ==> forall i :: 0 <= i < |v.cards| ==> v.cards[i] == CardOf(GetDatasets(response)[i])
  {
    var datasets := GetDatasets(response);
    if |datasets| == 0 then NoDatasets
    else Grid(seq(|datasets|, i requires 0 <= i < |datasets| => CardOf(datasets[i])))
  }

  /** A failed query shows the empty state rather than an error. */
  lemma FailedQueryShowsEmptyState(response: QueryResponse)
    requires response.error.Some? || response.data.None?
    ensures RegistryPage(response) == NoDatasets
  {
  }
}
