/** One run of the bot, `main` (bot.py, lines 97-168) without its printing:
    find the target group, scan every other group, gather the matches,
    drop repeated texts, order newest first and post each job to the target,
    counting what was found, dropped and sent. */
module Bot {
  import opened Util
  import opened Fingerprint
  import opened Matcher
  import opened Scanner
  import opened Groups
  import opened Collect
  import opened Duplicates
  import opened Ordering
  import opened Formatter
  import opened Relay

  /** `get_text_hash(msg.text)`: the md5 digest of the normalised text, with
      the digest taken as one-to-one, so the normalised text itself. */
  function JobKey(j: Job): string
  {
    Normalize(j.msg.text)
  }

  /** How a date is rendered by `strftime("%d/%m/%Y %H:%M")`. */
  type DateFormat = int -> string

  /** The post for job `j`, `format_message(msg, group_name)`. */
  function Render(j: Job, fmt: DateFormat): string
  {
    FormatMessage(j.msg.text, j.group, fmt(j.msg.date))
  }

  /** `Render` with the date format fixed. */
  function Renderer(fmt: DateFormat): Job -> string
  {
    j => Render(j, fmt)
  }

  /** The counters of the final report (lines 171-178). */
  datatype Summary = Summary(scanned: nat, found: nat, unique: nat, duplicates: nat, sent: nat)

  /** How a run ends: the early return of line 107, or a completed relay
      with its report and the posts made to the target, in order. */
  datatype Outcome = TargetNotFound | Completed(summary: Summary, posts: seq<string>)

  /** `unique_jobs` after deduplication and sorting (lines 139-150). */
  function UniqueJobs(all: seq<Job>): seq<Job>
  {
    SortByDate(Dedup(JobKey, all))
  }

  /** `main`. The account's dialogs, the group histories, the send outcomes
      and the date rendering are parameters; `since` is `now - DAYS_BACK`. */
  method Run(dialogs: seq<Dialog>, targetName: string, since: int, f: Filters,
             hs: Histories, ok: nat -> bool, fmt: DateFormat) returns (out: Outcome)
    ensures out.TargetNotFound? <==> FindTargetGroup(dialogs, targetName).None?
    ensures out.Completed? ==>
      var groups := ScanCandidates(dialogs, FindTargetGroup(dialogs, targetName).value);
      var all := Gather(groups, PerGroup(since, f, hs));
      var unique := UniqueJobs(all);
      && out.summary.scanned == |groups|
      && out.summary.found == |all|
      && out.summary.unique == |unique| == |Keys(JobKey, all)|
      && out.summary.duplicates == out.summary.found - out.summary.unique
      && out.summary.sent == CountUpTo(ok, |unique|) <= out.summary.unique
      && out.posts == Posts(unique, ok, Renderer(fmt))
  {
    var target := FindTargetGroup(dialogs, targetName);
    if target.None? {
      return TargetNotFound;
    }
    var groups := ScanCandidates(dialogs, target.value);
    ghost var per := PerGroup(since, f, hs);
    var allJobs: seq<Job> := [];
    var totalFound: nat := 0;
    var i := 0;
    while i < |groups|
      invariant i <= |groups|
      invariant allJobs == Gather(groups[..i], per)
      invariant totalFound == TotalFound(groups[..i], per)
    {
      var matched, _ := ScanGroup(hs(groups[i].entity), since, f);
      GatherStep(groups, i, per);
      totalFound := totalFound + |matched|;
      allJobs := allJobs + Tag(matched, groups[i].name);
      i := i + 1;
    }
    assert groups[..i] == groups;
    FoundIsGathered(groups, per);
    var unique := DedupJobs(JobKey, allJobs);
    DedupCount(JobKey, allJobs);
    var duplicates := totalFound - |unique|;
    unique := SortByDate(unique);
    var sent, posts := RelayAll(unique, ok, Renderer(fmt));
    out := Completed(Summary(|groups|, totalFound, |unique|, duplicates, sent), posts);
  }

  /** The jobs posted, in posting order, are newest first, carry pairwise
      different normalised texts, cover every normalised text found, and
      each is the first job found with its text. */
  lemma UniqueJobsSpec(all: seq<Job>)
    ensures NewestFirst(UniqueJobs(all))
    ensures DistinctKeys(JobKey, UniqueJobs(all))
    ensures Keys(JobKey, UniqueJobs(all)) == Keys(JobKey, all)
    ensures forall j :: j in UniqueJobs(all) ==> FirstWith(JobKey, all, JobKey(j)) == Some(j)
  {
    var d := Dedup(JobKey, all);
    var u := UniqueJobs(all);
    SortOrdered(d);
    SortPerm(d);
    DedupDistinct(JobKey, all, {});
    DistinctPerm(JobKey, d, u);
    DedupKeys(JobKey, all, {});
    DedupKeepsFirst(JobKey, all, {});
    assert forall x :: x in u <==> x in d by {
      assert forall x :: x in u <==> x in multiset(u);
      assert forall x :: x in d <==> x in multiset(d);
    }
    assert Keys(JobKey, u) == Keys(JobKey, d);
    forall j | j in u ensures FirstWith(JobKey, all, JobKey(j)) == Some(j) {
      var k :| 0 <= k < |d| && d[k] == j;
    }
  }

  /** A repost — a job whose text normalises like that of an earlier job,
      and which does not itself occur earlier — is never posted. */
  lemma RepostDropped(all: seq<Job>, i: nat, k: nat)
    requires i < k < |all| && JobKey(all[i]) == JobKey(all[k])
    requires all[k] !in all[..k]
    ensures all[k] !in UniqueJobs(all)
  {
    UniqueJobsSpec(all);
    var m := FirstWithAt(JobKey, all, i);
    assert all[..k][m] == all[m];
  }
}
