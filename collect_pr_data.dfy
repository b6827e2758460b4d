/** Collection of merged pull requests: classification of each pull request, splitting of the
    concatenated JSON that `gh api --paginate` prints, and the sorted list of collected rows. */
module PrCollection {
  import opened Wrappers
  import opened Text
  import opened Sorting

  // ---------------------------------------------------------------------------
  // Classification
  // ---------------------------------------------------------------------------

  /** The four kinds a pull request is classified as. */
  const PrTypes: set<string> := {"adapter", "task", "engineering", "other"}

  const AdapterTitleKeywords: seq<string> := ["adapter", "[adapter]"]
  const AdapterLabelKeywords: seq<string> := ["adapter"]
  const TaskTitleKeywords: seq<string> := ["task", "[task]"]
  const TaskLabelKeywords: seq<string> := ["task"]
  const EngineeringTitleKeywords: seq<string> :=
    ["ci", "cd", "infra", "build", "deps", "chore", "refactor",
     "test", "lint", "format", "config", "[engineering]"]
  const EngineeringLabelKeywords: seq<string> := ["engineering", "infrastructure", "ci/cd"]

  /** Some keyword is a substring of the (lower-cased) title. */
  predicate TitleHasAny(titleLower: string, keywords: seq<string>) {
    exists i :: 0 <= i < |keywords| && Contains(titleLower, keywords[i])
  }

  /** Some keyword is, as a whole, one of the (lower-cased) label names. */
  predicate LabelsHaveAny(labelNames: seq<string>, keywords: seq<string>) {
    exists i :: 0 <= i < |keywords| && keywords[i] in labelNames
  }

  function LowerAll(labels: seq<string>): (r: seq<string>)
    ensures |r| == |labels|
    ensures forall i :: 0 <= i < |labels| ==> r[i] == Lower(labels[i])
  {
    seq(|labels|, i requires 0 <= i < |labels| => Lower(labels[i]))
  }

  /** The rule chain of `classify_pr`: the first rule whose keywords hit decides. */
  function ClassifyPr(title: string, labels: seq<string>): (r: string)
    ensures r in PrTypes
  {
    var titleLower := Lower(title);
    var labelNames := LowerAll(labels);
    if TitleHasAny(titleLower, AdapterTitleKeywords) then "adapter"
    else if LabelsHaveAny(labelNames, AdapterLabelKeywords) then "adapter"
    else if TitleHasAny(titleLower, TaskTitleKeywords) then "task"
    else if LabelsHaveAny(labelNames, TaskLabelKeywords) then "task"
    else if TitleHasAny(titleLower, EngineeringTitleKeywords) then "engineering"
    else if LabelsHaveAny(labelNames, EngineeringLabelKeywords) then "engineering"
    else "other"
  }

  /** Some label equals `name` once lower-cased, as a whole label. */
  ghost predicate HasLabel(labels: seq<string>, name: string) {
    exists l :: l in labels && Lower(l) == name
  }

  /** Reference description of the classification signals, with each bracketed keyword
      (`[adapter]`, `[task]`) dropped because it contains the plain keyword. */
  ghost predicate AdapterSignal(title: string, labels: seq<string>) {
    Contains(Lower(title), "adapter") || HasLabel(labels, "adapter")
  }

  ghost predicate TaskSignal(title: string, labels: seq<string>) {
    Contains(Lower(title), "task") || HasLabel(labels, "task")
  }

  ghost predicate EngineeringSignal(title: string, labels: seq<string>) {
    (exists k :: k in EngineeringTitleKeywords && Contains(Lower(title), k))
    || HasLabel(labels, "engineering") || HasLabel(labels, "infrastructure") || HasLabel(labels, "ci/cd")
  }

  lemma LabelsHaveAnyIff(labels: seq<string>, keywords: seq<string>)
    ensures LabelsHaveAny(LowerAll(labels), keywords)
        <==> exists k :: k in keywords && HasLabel(labels, k)
  {
    var names := LowerAll(labels);
    if LabelsHaveAny(names, keywords) {
      var i :| 0 <= i < |keywords| && keywords[i] in names;
      var j :| 0 <= j < |names| && names[j] == keywords[i];
      assert labels[j] in labels && Lower(labels[j]) == keywords[i];
      assert HasLabel(labels, keywords[i]);
    }
    if k :| k in keywords && HasLabel(labels, k) {
      var l :| l in labels && Lower(l) == k;
      var j :| 0 <= j < |labels| && labels[j] == l;
      assert names[j] == k;
      var i :| 0 <= i < |keywords| && keywords[i] == k;
      assert keywords[i] in names;
    }
  }

  /** A bracketed keyword adds nothing: wherever it occurs, the plain keyword occurs. */
  lemma BracketedSubsumed(s: string, word: string)
    requires Contains(s, "[" + word + "]")
    ensures Contains(s, word)
  {
    var k := "[" + word + "]";
    assert k[1..1 + |word|] == word;
    assert OccursAt(word, k, 1);
    ContainsIff(k, word);
    ContainsTransitive(s, k, word);
  }

  lemma AdapterTitleIff(title: string)
    ensures TitleHasAny(Lower(title), AdapterTitleKeywords) <==> Contains(Lower(title), "adapter")
  {
    assert "[" + "adapter" + "]" == "[adapter]";
    if Contains(Lower(title), "[adapter]") {
      BracketedSubsumed(Lower(title), "adapter");
    }
    assert AdapterTitleKeywords[0] == "adapter";
  }

  lemma TaskTitleIff(title: string)
    ensures TitleHasAny(Lower(title), TaskTitleKeywords) <==> Contains(Lower(title), "task")
  {
    assert "[" + "task" + "]" == "[task]";
    if Contains(Lower(title), "[task]") {
      BracketedSubsumed(Lower(title), "task");
    }
    assert TaskTitleKeywords[0] == "task";
  }

  /** "adapter" in the title, in any case and anywhere, or a label that is exactly
      "adapter" in any case, and nothing else, makes a pull request an adapter one. */
  lemma ClassifyAdapterIff(title: string, labels: seq<string>)
    ensures ClassifyPr(title, labels) == "adapter" <==> AdapterSignal(title, labels)
  {
    AdapterTitleIff(title);
    LabelsHaveAnyIff(labels, AdapterLabelKeywords);
  }

  /** Task signals count only when there is no adapter signal. */
  lemma ClassifyTaskIff(title: string, labels: seq<string>)
    ensures ClassifyPr(title, labels) == "task"
        <==> !AdapterSignal(title, labels) && TaskSignal(title, labels)
  {
    AdapterTitleIff(title);
    TaskTitleIff(title);
    LabelsHaveAnyIff(labels, AdapterLabelKeywords);
    LabelsHaveAnyIff(labels, TaskLabelKeywords);
  }

  /** Engineering signals count only when there is neither an adapter nor a task signal. */
  lemma ClassifyEngineeringIff(title: string, labels: seq<string>)
    ensures ClassifyPr(title, labels) == "engineering"
        <==> !AdapterSignal(title, labels) && !TaskSignal(title, labels)
             && EngineeringSignal(title, labels)
  {
    AdapterTitleIff(title);
    TaskTitleIff(title);
    LabelsHaveAnyIff(labels, AdapterLabelKeywords);
    LabelsHaveAnyIff(labels, TaskLabelKeywords);
    LabelsHaveAnyIff(labels, EngineeringLabelKeywords);
    var tl := Lower(title);
    assert TitleHasAny(tl, EngineeringTitleKeywords)
       <==> exists k :: k in EngineeringTitleKeywords && Contains(tl, k);
  }

  /** Without any keyword hit the pull request is "other". */
  lemma ClassifyOtherIff(title: string, labels: seq<string>)
    ensures ClassifyPr(title, labels) == "other"
        <==> !AdapterSignal(title, labels) && !TaskSignal(title, labels)
             && !EngineeringSignal(title, labels)
  {
    ClassifyAdapterIff(title, labels);
    ClassifyTaskIff(title, labels);
    ClassifyEngineeringIff(title, labels);
  }

  /** An "adapter" title wins whatever the labels and the rest of the title say. */
  lemma AdapterTitleWins(title: string, labels: seq<string>)
    requires Contains(Lower(title), "adapter")
    ensures ClassifyPr(title, labels) == "adapter"
  {
    ClassifyAdapterIff(title, labels);
  }

  /** A task title with an "adapter" label is an adapter pull request. */
  lemma TaskTitleAdapterLabel()
    ensures ClassifyPr("Add new task", ["adapter"]) == "adapter"
  {
    assert Lower("adapter") == "adapter";
    assert HasLabel(["adapter"], "adapter");
    ClassifyAdapterIff("Add new task", ["adapter"]);
  }

  /** Title keywords are substrings: "latest" contains "test". */
  lemma SubstringTitleExample()
    ensures ClassifyPr("LaTest", []) == "engineering"
  {
    var tl := Lower("LaTest");
    assert tl == "latest";
    AdapterTitleIff("LaTest");
    TaskTitleIff("LaTest");
    assert !Contains("latest", "adapter");
    assert "latest"[1..] == "atest" && "atest"[1..] == "test" && "test"[1..] == "est";
    assert "test"[..4] == "test" && "test"[1] != "task"[1];
    assert "atest"[..4] == "ates" && "ates"[0] != "task"[0];
    assert "latest"[..4] == "late" && "late"[0] != "task"[0];
    assert !Contains("est", "task");
    assert !Contains("test", "task");
    assert !Contains("atest", "task");
    assert !Contains("latest", "task");
    assert Contains("test", "test");
    assert Contains("atest", "test");
    assert Contains("latest", "test");
    assert EngineeringTitleKeywords[7] == "test";
  }

  /** Labels match whole: "Adapters" is not the label "adapter". */
  lemma WholeLabelExample()
    ensures ClassifyPr("", ["Adapters"]) == "other"
  {
    assert Lower("Adapters") == "adapters";
    assert LowerAll(["Adapters"]) == ["adapters"];
  }

  // ---------------------------------------------------------------------------
  // Splitting the concatenated JSON output
  // ---------------------------------------------------------------------------

  /** The characters skipped between two JSON values. */
  const Whitespace: set<char> := {' ', '\t', '\n', '\r'}

  /** The first position at or after `pos` that holds no whitespace, or `|text|`. */
  function SkipWhitespace(text: string, pos: nat): (p: nat)
    requires pos <= |text|
    ensures pos <= p <= |text|
    ensures p == |text| || text[p] !in Whitespace
    ensures forall j :: pos <= j < p ==> text[j] in Whitespace
    decreases |text| - pos
  {
    if pos < |text| && text[pos] in Whitespace then SkipWhitespace(text, pos + 1) else pos
  }

  /** The outcome of the loop: the decoded objects, or the position where decoding
      raised an error. */
  datatype SplitResult<T> = Decoded(objects: seq<T>) | DecodeError(position: nat)

  function Prefixed<T>(front: seq<T>, r: SplitResult<T>): SplitResult<T> {
    match r
    case Decoded(objs) => Decoded(front + objs)
    case DecodeError(p) => r
  }

  /** The one obligation on the decoder (`raw_decode`): on success it ends after where it
      started. `None` stands for a decoding error. */
  ghost predicate Advances<T>(text: string, decode: (string, nat) -> Option<(T, nat)>) {
    forall p: nat :: p < |text| && decode(text, p).Some? ==> decode(text, p).value.1 > p
  }

  /** What the loop computes from position `pos` on. */
  function SplitFrom<T>(text: string, decode: (string, nat) -> Option<(T, nat)>, pos: nat): (r: SplitResult<T>)
    requires Advances(text, decode)
    ensures r.DecodeError? ==> pos <= r.position < |text| && text[r.position] !in Whitespace
    ensures r.DecodeError? ==> decode(text, r.position).None?
    decreases |text| - pos
  {
    if pos >= |text| then Decoded([])
    else
      var p := SkipWhitespace(text, pos);
      if p >= |text| then Decoded([])
      else match decode(text, p)
        case None => DecodeError(p)
        case Some((obj, end)) => Prefixed([obj], SplitFrom(text, decode, end))
  }

  lemma SplitSkip<T>(text: string, decode: (string, nat) -> Option<(T, nat)>, pos: nat)
    requires Advances(text, decode)
    requires pos < |text| && text[pos] in Whitespace
    ensures SplitFrom(text, decode, pos) == SplitFrom(text, decode, pos + 1)
  {
    if pos + 1 < |text| {
      assert SkipWhitespace(text, pos) == SkipWhitespace(text, pos + 1);
    }
  }

  lemma SplitDecode<T>(text: string, decode: (string, nat) -> Option<(T, nat)>, pos: nat)
    requires Advances(text, decode)
    requires pos < |text| && text[pos] !in Whitespace
    ensures decode(text, pos).None? ==> SplitFrom(text, decode, pos) == DecodeError(pos)
    ensures decode(text, pos).Some? ==>
      SplitFrom(text, decode, pos) == Prefixed([decode(text, pos).value.0], SplitFrom(text, decode, decode(text, pos).value.1))
  {
    assert SkipWhitespace(text, pos) == pos;
  }

  lemma PrefixedAppend<T>(a: seq<T>, b: seq<T>, r: SplitResult<T>)
    ensures Prefixed(a, Prefixed(b, r)) == Prefixed(a + b, r)
  {
    if r.Decoded? {
      assert a + (b + r.objects) == (a + b) + r.objects;
    }
  }

  /** The cursor loop of `fetch_merged_prs` over the stripped output `text`. */
  method SplitConcatenated<T>(text: string, decode: (string, nat) -> Option<(T, nat)>)
    returns (result: SplitResult<T>)
    requires Advances(text, decode)
    ensures result == SplitFrom(text, decode, 0)
  {
    var all: seq<T> := [];
    var pos: nat := 0;
    while pos < |text|
      invariant SplitFrom(text, decode, 0) == Prefixed(all, SplitFrom(text, decode, pos))
      decreases |text| - pos
    {
      while pos < |text| && text[pos] in Whitespace
        invariant pos <= |text|
        invariant SplitFrom(text, decode, 0) == Prefixed(all, SplitFrom(text, decode, pos))
        decreases |text| - pos
      {
        SplitSkip(text, decode, pos);
        pos := pos + 1;
      }
      if pos >= |text| {
        assert all + [] == all;
        break;
      }
      SplitDecode(text, decode, pos);
      var decoded := decode(text, pos);
      if decoded.None? {
        return DecodeError(pos);
      }
      var (obj, end) := decoded.value;
      PrefixedAppend(all, [obj], SplitFrom(text, decode, end));
      all := all + [obj];
      pos := end;
    }
    assert all + [] == all;
    return Decoded(all);
  }

  /** The loop never yields more objects than `text` has characters after `pos`. */
  lemma {:induction false} SplitCountBound<T>(text: string, decode: (string, nat) -> Option<(T, nat)>, pos: nat)
    requires Advances(text, decode)
    requires SplitFrom(text, decode, pos).Decoded?
    ensures |SplitFrom(text, decode, pos).objects| <= |text| - pos || pos >= |text|
    decreases |text| - pos
  {
    if pos < |text| {
      var p := SkipWhitespace(text, pos);
      if p < |text| {
        var end := decode(text, p).value.1;
        SplitCountBound(text, decode, end);
      }
    }
  }

  /** Output made only of whitespace holds no pull requests. */
  lemma {:induction false} SplitBlank<T>(text: string, decode: (string, nat) -> Option<(T, nat)>, pos: nat)
    requires Advances(text, decode)
    requires forall j :: pos <= j < |text| ==> text[j] in Whitespace
    ensures SplitFrom(text, decode, pos) == Decoded([])
  {
    if pos < |text| {
      var p := SkipWhitespace(text, pos);
      assert p == |text|;
    }
  }

  // ---------------------------------------------------------------------------
  // Collected rows
  // ---------------------------------------------------------------------------

  /** The fields of a merged pull request that `main` reads; `labels` is `None` when the
      key is missing. */
  datatype MergedPr = MergedPr(
    number: int, htmlUrl: string, userLogin: string, title: string, labels: Option<seq<string>>)

  /** The additions and deletions of `get_pr_details`; `None` when the key is missing. */
  datatype PrDetails = PrDetails(additions: Option<int>, deletions: Option<int>)

  /** A row of raw_pr_data.json. */
  datatype PrEntry = PrEntry(
    prNumber: int, prUrl: string, authorGithubHandle: string,
    additions: int, deletions: int, prTitle: string, prType: string)

  function MakeEntry(pr: MergedPr, details: PrDetails): (e: PrEntry)
    ensures e.prNumber == pr.number && e.prUrl == pr.htmlUrl
    ensures e.authorGithubHandle == pr.userLogin && e.prTitle == pr.title
    ensures e.prType == ClassifyPr(pr.title, pr.labels.GetOr([]))
    ensures e.prType in PrTypes
    ensures e.additions == (if details.additions.Some? then details.additions.value else 0)
    ensures e.deletions == (if details.deletions.Some? then details.deletions.value else 0)
  {
    PrEntry(pr.number, pr.htmlUrl, pr.userLogin,
            details.additions.GetOr(0), details.deletions.GetOr(0),
            pr.title, ClassifyPr(pr.title, pr.labels.GetOr([])))
  }

  /** The rows in fetch order, before sorting; `getDetails` stands for the per-PR request. */
  function Entries(merged: seq<MergedPr>, getDetails: int -> PrDetails): (r: seq<PrEntry>)
    ensures |r| == |merged|
    ensures forall i :: 0 <= i < |merged| ==> r[i] == MakeEntry(merged[i], getDetails(merged[i].number))
    ensures forall i :: 0 <= i < |merged| ==>
      r[i].prNumber == merged[i].number && r[i].authorGithubHandle == merged[i].userLogin
    ensures forall i :: 0 <= i < |merged| ==>
      r[i].prType == ClassifyPr(merged[i].title, merged[i].labels.GetOr([]))
  {
    var r := seq(|merged|, i requires 0 <= i < |merged| => MakeEntry(merged[i], getDetails(merged[i].number)));
    assert forall i :: 0 <= i < |merged| ==> r[i] == MakeEntry(merged[i], getDetails(merged[i].number));
    r
  }

  /** Sort key of `pr_data.sort(key=pr_number, reverse=True)`. */
  function NegPrNumber(e: PrEntry): int {
    -e.prNumber
  }

  /** The loop of `main` that builds the rows, followed by the descending sort. */
  method CollectPrData(merged: seq<MergedPr>, getDetails: int -> PrDetails)
    returns (prData: seq<PrEntry>)
    ensures prData == SortBy(Entries(merged, getDetails), NegPrNumber)
    ensures multiset(prData) == multiset(Entries(merged, getDetails))
    ensures forall i, j :: 0 <= i < j < |prData| ==> prData[i].prNumber >= prData[j].prNumber
    ensures forall n :: WithKey(prData, NegPrNumber, n) == WithKey(Entries(merged, getDetails), NegPrNumber, n)
  {
    var entries: seq<PrEntry> := [];
    for i := 0 to |merged|
      invariant |entries| == i
      invariant forall k :: 0 <= k < i ==> entries[k] == MakeEntry(merged[k], getDetails(merged[k].number))
    {
      var pr := merged[i];
      var details := getDetails(pr.number);
      entries := entries + [MakeEntry(pr, details)];
    }
    assert entries == Entries(merged, getDetails);
    prData := SortBy(entries, NegPrNumber);
    SortByStableAll(entries, NegPrNumber);
    assert forall i, j :: 0 <= i < j < |prData| ==> NegPrNumber(prData[i]) <= NegPrNumber(prData[j]);
  }
}
