# Harbor contributors pipeline and registry ordering, in Dafny

This project models the parts of the Harbor documentation site that have list and map logic:

- **Merged pull requests** (`collect_pr_data.py`). Each pull request is classified as
  `adapter`, `task`, `engineering` or `other` by a priority-ordered rule chain. Title
  keywords are matched as substrings of the lower-cased title. Label keywords are matched
  as whole lower-cased labels. The script also splits the concatenated JSON that
  `gh api --paginate` prints, using a whitespace-skipping cursor. Finally it builds one row
  per pull request and sorts the rows by number, largest first.
- **Contributors** (`generate_contributions.py`):
  - a user lookup in which the last record with a handle wins;
  - a group-by-author loop that fills a dictionary of contributor records: counts, sums
    of additions and deletions, the list of pull requests, and profile fields with
    defaults;
  - a stable ranking by pull-request count, largest first;
  - the adapter flags of the two CSV files.
- **User records** (`collect_user_data.py`). The script builds the sorted list of distinct
  author handles and one profile record per handle. A field falls back to its default
  when the profile fetch fails or the field is missing or empty.
- **Registry page** (`src/app/registry/page.tsx`). `getDatasets` returns nothing when the
  query fails. Otherwise it sorts the rows, which come newest first, with a stable sort
  that brings the featured datasets to the front in list order. One card is shown per
  dataset: the run command, the description fallback and the task count with its
  default of 0.

Modules:
- `Wrappers`: `Option`.
- `Sorting`: a stable insertion sort on an integer key, with these facts proved about it:
  - it is a permutation;
  - it is sorted;
  - it is stable;
  - any sequence that is sorted and stable is equal to it.

  The three keyed sorts of the system are stable:
  - `pr_data.sort` by `pr_number` in `collect_pr_data.py`;
  - `sorted` of the contributors by `pr_count` in `generate_contributions.py`, which is
    Timsort and stays stable with `reverse=True`;
  - the registry page's `Array.prototype.sort`.

  So each is modelled as this sort, with a negated key where the order is descending.
  The fourth sort, `sorted(set(...))` of the author handles in `collect_user_data.py`,
  is modelled by `UserCollection.SortedDistinct` instead. It is an insertion without
  duplicates in Python's string order.
- `Text`: ASCII `lower()`, the substring test and Python's string order.
- `PrCollection`, `Contributions`, `UserCollection` and `Registry`: one module per source
  file.

Function parameters stand for the external calls:
- `getDetails` stands for the per-PR request;
- `fetch` stands for the user-profile request;
- `decode` stands for `json.JSONDecoder.raw_decode`.

The loops of the scripts are methods. Each is proved equal to a specification function,
and the properties are proved as lemmas about those functions.

## Model

| member | source | states |
|---|---|---|
| `Text.Lower` | collect_pr_data.py:19-20 | lower-casing keeps the length and maps each character through the ASCII case map |
| `Text.ContainsIff` | collect_pr_data.py:22 | `k in s` for strings holds exactly when `k` occurs in `s` at some index |
| `Text.ContainsTransitive` | collect_pr_data.py:22 | whatever contains a string contains each of its substrings |
| `Text.LexLessTransitive` | collect_user_data.py:31 | Python's string order is transitive |
| `Text.LexLessTotal` | collect_user_data.py:31 | two different strings are ordered one way or the other |
| `Text.LexLessAsymmetric` | collect_user_data.py:31 | the string order is asymmetric |
| `Text.LexLessIrreflexive` | collect_user_data.py:31 | no string is smaller than itself |
| `Sorting.SortBy` | collect_pr_data.py:108 | the sort returns a permutation of its input, sorted by the key |
| `Sorting.InsertPermutes` | collect_pr_data.py:108 | one insertion step adds the element and loses nothing |
| `Sorting.InsertSorted` | collect_pr_data.py:108 | an insertion step keeps a sorted sequence sorted |
| `Sorting.SortByStable` | generate_contributions.py:70 | stability: the elements with any one key keep their relative order |
| `Sorting.SortByKeepsDistinct` | generate_contributions.py:70 | sorting neither merges nor duplicates records with distinct labels |
| `Sorting.StableSortUnique` | src/app/registry/page.tsx:38-45 | two sequences sorted by the key and equal within each key are equal, so every stable sort gives the same result |
| `PrCollection.ClassifyPr` | collect_pr_data.py:17-37 | the classification is always one of `adapter`, `task`, `engineering`, `other` |
| `PrCollection.LabelsHaveAnyIff` | collect_pr_data.py:20-24 | a label keyword hits exactly when some whole label equals it after lower-casing |
| `PrCollection.LowerAll` | collect_pr_data.py:20 | one lower-cased label per label, in order |
| `PrCollection.BracketedSubsumed` | collect_pr_data.py:22-26 | wherever `[word]` occurs, `word` occurs, so the bracketed keywords add nothing |
| `PrCollection.AdapterTitleIff` | collect_pr_data.py:22 | a title hits an adapter title keyword exactly when it contains `adapter` |
| `PrCollection.TaskTitleIff` | collect_pr_data.py:26 | a title hits a task title keyword exactly when it contains `task` |
| `PrCollection.ClassifyAdapterIff` | collect_pr_data.py:22-25 | `adapter` exactly when the lower-cased title contains `adapter` or some label is `adapter` in any case |
| `PrCollection.ClassifyTaskIff` | collect_pr_data.py:22-29 | `task` exactly when there is no adapter signal and there is a task signal |
| `PrCollection.ClassifyEngineeringIff` | collect_pr_data.py:22-36 | `engineering` exactly when there is neither an adapter nor a task signal and some engineering keyword hits |
| `PrCollection.ClassifyOtherIff` | collect_pr_data.py:37 | `other` exactly when no keyword of any rule hits |
| `PrCollection.AdapterTitleWins` | collect_pr_data.py:22-23 | an `adapter` title gives `adapter` whatever the labels say |
| `PrCollection.TaskTitleAdapterLabel` | collect_pr_data.py:22-29 | a task title with an `adapter` label is an adapter pull request |
| `PrCollection.SubstringTitleExample` | collect_pr_data.py:30-34 | `LaTest` matches `test` as a substring and is `engineering` |
| `PrCollection.WholeLabelExample` | collect_pr_data.py:24-35 | the label `Adapters` matches no label keyword, so the result is `other` |
| `PrCollection.SkipWhitespace` | collect_pr_data.py:59-60 | the skip ends at the end of the text or at a non-whitespace character, and skips only whitespace |
| `PrCollection.SplitSkip` | collect_pr_data.py:59-60 | skipping one whitespace character does not change what the rest of the loop yields |
| `PrCollection.SplitFrom` | collect_pr_data.py:57-65 | what the cursor loop yields from a position; a decoding error is reported at a non-whitespace position inside the text where the decoder fails |
| `PrCollection.SplitDecode` | collect_pr_data.py:63-65 | at a non-whitespace character the loop decodes one value and resumes at its end, or stops with an error |
| `PrCollection.SplitConcatenated` | collect_pr_data.py:53-65 | the cursor loop yields exactly the values that `SplitFrom` describes; it ends because every decode advances the cursor |
| `PrCollection.SplitCountBound` | collect_pr_data.py:57-65 | the loop yields no more values than the text has characters |
| `PrCollection.SplitBlank` | collect_pr_data.py:57-62 | output that is all whitespace holds no values |
| `PrCollection.MakeEntry` | collect_pr_data.py:94-104 | the row copies number, URL, author and title; missing additions and deletions are 0; the type is `ClassifyPr` of the title and the labels, with no labels when the key is missing |
| `PrCollection.Entries` | collect_pr_data.py:84-105 | one row per merged pull request in fetch order, the row at each position being `MakeEntry` of that pull request and its details, so with its number, author and classification |
| `PrCollection.CollectPrData` | collect_pr_data.py:84-108 | the result is the rows in a permutation, ordered from the largest number down, equal-number rows keeping their fetch order |
| `Contributions.UserMap` | generate_contributions.py:38 | every handle of the user data has an entry, every entry is a handle of the user data, and the last record with a handle wins |
| `Contributions.NewContributor` | generate_contributions.py:46-57 | a new record starts at zero with no pull requests; without a user record the name is the handle and email and affiliation are empty; with one, each present profile field is copied and a missing one takes its default (handle for the name, empty string otherwise) |
| `Contributions.PrsBy` | generate_contributions.py:43-47 | the pull requests of an author are all by that author, and there are some exactly when the handle is an author |
| `Contributions.PrsByMembers` | generate_contributions.py:58-66 | a pull request is in its author's list exactly when it is in the input with that author |
| `Contributions.Authors` | generate_contributions.py:40-56 | the dictionary keys are distinct and are exactly the authors of the input |
| `Contributions.AuthorsFirstAppearance` | generate_contributions.py:46-70 | for any two keys, every pull request of the later key comes after some pull request of the earlier one: the dictionary order that the ranking keeps for ties is first-appearance order |
| `Contributions.AggregateStep` | generate_contributions.py:58-66 | one more pull request changes its author's record by one count, its additions, its deletions and one list entry, and changes no other record |
| `Contributions.AddPr` | generate_contributions.py:59-67 | one pull request adds one to the count, its additions and deletions to the totals and its reference to the end of the list; the profile fields are unchanged |
| `Contributions.Aggregate` | generate_contributions.py:43-67 | the record of an author after the whole loop: its count is the number of its pull requests and the length of its list, its totals are their sums, and its profile fields are those of the fresh record |
| `Contributions.GroupStep` | generate_contributions.py:42-66 | one iteration of the loop keeps the dictionary equal to the aggregate of the pull requests seen so far |
| `Contributions.GroupByAuthor` | generate_contributions.py:40-67 | the loop leaves one record per distinct author, in first-appearance order, each the aggregate of that author's pull requests; for any two keys, every pull request of the later one comes after a pull request of the earlier one |
| `Contributions.Rank` | generate_contributions.py:70 | the ranking is a permutation, with non-increasing `pr_count`, and equal counts keep dictionary order |
| `Contributions.RankKeepsTotal` | generate_contributions.py:70 | ranking does not change the sum of `pr_count` |
| `Contributions.TotalPrCount` | generate_contributions.py:43-60 | the per-author counts add up to the number of input pull requests |
| `Contributions.AnyAdapter` | generate_contributions.py:88 | `has_adapter` holds exactly when some pull request has type `adapter` |
| `Contributions.AnyNonAdapter` | generate_contributions.py:89 | `has_non_adapter` holds exactly when some pull request has another type |
| `Contributions.ShowRowOf` | generate_contributions.py:87-90 | the row carries handle, name and both flags, and a non-empty list sets at least one flag |
| `Contributions.ContactRowOf` | generate_contributions.py:98-100 | the contact row carries the profile fields, and `is_adapter` equals `has_adapter` |
| `Contributions.GroupedRecords` | generate_contributions.py:43-67 | each grouped record belongs to an author, is the aggregate of that author's pull requests, and has `pr_count` equal to the length of a non-empty `pr_list` |
| `Contributions.RankedDistinct` | generate_contributions.py:44-57 | the ranked list has one record per distinct author and no handle twice |
| `Contributions.RankedRecords` | generate_contributions.py:43-70 | every ranked record is its author's aggregate, with `pr_count` equal to the length of a non-empty `pr_list` |
| `Contributions.RankedTotal` | generate_contributions.py:43-70 | the `pr_count` values of the ranked list add up to `len(pr_data)` |
| `Contributions.RankedFlags` | generate_contributions.py:88-89 | every ranked contributor has an adapter pull request or another one |
| `Contributions.GenerateContributions` | generate_contributions.py:36-70 | `main` computes `Ranked`: non-increasing `pr_count`, ties in first-appearance order |
| `Contributions.ValuesInOrder` | generate_contributions.py:70 | `contributors.values()`: one record per key, in key order |
| `Contributions.Ranked` | generate_contributions.py:38-70 | the ranked list is a permutation of the grouped records with non-increasing `pr_count` |
| `UserCollection.InsertUnique` | collect_user_data.py:31 | inserting into a strictly increasing list keeps it strictly increasing and adds exactly the new handle |
| `UserCollection.SortedDistinct` | collect_user_data.py:31 | `sorted(set(hs))` is strictly increasing and has exactly the elements of `hs` |
| `UserCollection.Handles` | collect_user_data.py:31 | the handles are strictly increasing and are exactly the authors of the pull-request data |
| `UserCollection.StrictlyIncreasingUnique` | collect_user_data.py:31 | the handle list is determined by the set of authors |
| `UserCollection.CollectedHandlesDistinct` | collect_user_data.py:31-44 | the records collected have pairwise different handles |
| `UserCollection.GetUserInfo` | collect_user_data.py:16-23 | a failed fetch gives the empty profile, a successful one the decoded profile |
| `UserCollection.FieldOr` | collect_user_data.py:41-43 | `info.get(key) or default` is the field when present, non-null and non-empty, else the default |
| `UserCollection.UserRecordFor` | collect_user_data.py:39-44 | the record carries the handle; email is the fetched email or `""`, name the fetched name or the handle, affiliation the fetched `company` or `""`, each default taken when the field is missing, null or empty; so the name is never empty for a non-empty handle |
| `UserCollection.FailedFetchDefaults` | collect_user_data.py:20-22 | after a failed fetch the record is the handle, empty email, the handle as name and empty affiliation |
| `UserCollection.CollectUsers` | collect_user_data.py:35-44 | one record per handle, in the order of the handles, each built from that handle's fetched profile |
| `UserCollection.CollectUserData` | collect_user_data.py:27-44 | the records follow the sorted distinct handles of the pull-request data one to one |
| `UserCollection.ProfileReachesContributor` | generate_contributions.py:38-52 | once every handle has one record, the contributor record copies that record's email, name and affiliation |
| `Registry.IndexOf` | src/app/registry/page.tsx:39-40 | `indexOf` gives -1 exactly for a missing name, otherwise the first index holding it |
| `Registry.FeaturedRank` | src/app/registry/page.tsx:23 | the rank is below the list length exactly for featured names, and is then their index |
| `Registry.FeaturedCompare` | src/app/registry/page.tsx:38-45 | a featured dataset sorts before a non-featured one, two non-featured ones compare equal, and two featured ones compare by their index in the featured list |
| `Registry.CompareIsRankOrder` | src/app/registry/page.tsx:38-45 | the comparator's sign is that of the rank difference, so it is a consistent comparator |
| `Registry.GetDatasets` | src/app/registry/page.tsx:32-45 | on an error or null data the result is empty; otherwise it is a permutation of the rows, sorted by rank |
| `Registry.FeaturedFirst` | src/app/registry/page.tsx:41-43 | every featured dataset precedes every other one, and featured ones follow the list order |
| `Registry.GetDatasetsStable` | src/app/registry/page.tsx:41-44 | non-featured datasets, and the versions of one featured name, keep the incoming newest-first order |
| `Registry.GetDatasetsUnique` | src/app/registry/page.tsx:38 | any stable sort by the comparator yields exactly this result |
| `Registry.SortExample` | src/app/registry/page.tsx:23-45 | zzz, terminal-bench, aaa, swebench-verified become terminal-bench, swebench-verified, zzz, aaa |
| `Registry.TaskCount` | src/app/registry/page.tsx:98 | the count is the aggregate's count when present, otherwise 0 |
| `Registry.DescriptionText` | src/app/registry/page.tsx:87 | a missing or empty description shows as "No description available" |
| `Registry.RunCommand` | src/app/registry/page.tsx:94 | the command is `harbor run -d ` followed by `name@version` |
| `Registry.CardOf` | src/app/registry/page.tsx:73-99 | the card's key is `name:version`, its title the name, its badge `v` and the version, and it shows the description text, the run command and the task count |
| `Registry.RunCommandRoundTrip` | src/app/registry/page.tsx:94 | the command `harbor run -d <name>@<version>` names exactly the card's dataset |
| `Registry.RegistryPage` | src/app/registry/page.tsx:61-102 | the empty state is shown exactly when there are no datasets, otherwise one card per dataset in order |
| `Registry.FailedQueryShowsEmptyState` | src/app/registry/page.tsx:32-35 | a failed query shows the empty state |

## Left out

- The `gh` subprocess calls, file reads and writes, JSON and CSV serialisation and every
  `print`. Their results are parameters of the model: the merged pull requests, the
  `getDetails` function, the profile `fetch`, and the input sequences of the later scripts.
- `json.JSONDecoder.raw_decode` is an abstract `decode` parameter. Its one obligation is
  that a successful decode ends after where it started. A decoding error is a
  `DecodeError` result; in the script the exception ends the run.
- `result.stdout.strip()`: the split takes text that is already stripped.
- `str.lower()` is modelled for ASCII letters only; full Unicode case mapping is not.
  Python's string order is modelled as code-point order, which is what Python uses.
- `generate_contributions.py` reads profile fields that may be missing; `None` models a
  missing key. A JSON `null` or a non-string value in that file is not modelled.
- The contributor records are dictionaries updated in place through the alias `c`. The
  model updates the map entry with a new value instead. No other reference to those
  dictionaries exists, so aliasing is not modelled.
- The "top 10" summary printed at the end of `generate_contributions.py` is output only.
- The Supabase query of the registry page (`src/app/registry/page.tsx:26-30`) is not
  modelled. Its ordering by `created_at` is taken as the order of the given rows, and its
  `dataset_task(count)` aggregate as a field of each row.
- `console.error` on a failed query is not modelled.
- Rendering of the page markup is modelled only as the list of cards and the empty
  state. The task count is kept as a number, not the text `"<n> tasks"`.
- `src/lib/supabase/types.ts`, the layouts, `dataset-card.tsx` and `next.config.mjs` are
  declarations, UI chrome or static configuration, and are not part of this model.
- Pagination and git-URL link builders are not part of the shown files and are not
  modelled.
- `Registry.RunCommandRoundTrip` requires that the dataset name has no `@`. With an `@`
  in the name, the command string does not determine the name.
