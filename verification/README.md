# Job-posting relay bot, modelled in Dafny

`bot.py` is a Telegram user-account bot. It scans every group the account belongs
to for job adverts written within the last `DAYS_BACK` days. A message counts as an
advert when its lower-cased text contains a job keyword, an include keyword and no
exclude keyword. The bot drops reposts, meaning messages whose text is the same
after lower-casing and whitespace collapsing. It relays the rest, newest first, to
the target group (`TARGET_GROUP`) and reports counters.

This project models that pipeline as pure functions over immutable data. Four of
the program's loops are also written as methods or method loops: the message loop
of `scan_group` (`Scanner.ScanGroup`), the gathering loop of `main` (in `Bot.Run`),
the `seen_hashes` loop (`Duplicates.DedupJobs`) and the send loop
(`Relay.RelayAll`). The two dialog loops of `find_target_group` and
`get_all_groups` are recursive functions. The modules:

- `Keywords`: parsing of a comma-separated keyword variable.
- `Text`: the Python string operations used: `lower`, `strip`, `split(",")`,
  `split()`, `" ".join` and `in`.
- `Matcher`: `matches_filter`.
- `Fingerprint`: the normalisation behind `get_text_hash`.
- `Groups`: `find_target_group`, `get_all_groups` and the target exclusion.
- `Scanner`: `scan_group`, including the early stop and a read error part-way.
- `Collect`: gathering of `all_jobs` and `total_found`.
- `Duplicates`: the `seen_hashes` loop.
- `Ordering`: the stable newest-first sort.
- `Formatter`: `format_message`.
- `Relay`: the send loop, where a failed send does not stop later sends. It takes
  the text of each post as a function of the job.
- `Bot`: `main` as a whole, with its counters; it posts `format_message` of each job.

The Telegram side is replaced by parameters:

- the account's dialogs are a `seq<Dialog>`;
- each group's history is a `History`: the messages, newest first, plus an optional
  index at which reading raises;
- whether the `i`-th send succeeds is `ok(i)`;
- date rendering is a function `int -> string`;
- dates are integers.

Two behaviours of the code are worth stating directly, and the model follows them:

- `any(...)` over an empty list is `False`. So an empty `KEYWORDS_JOB`, like an empty
  `KEYWORDS_INCLUDE`, rejects every message; the job check is never skipped
  (`Matcher.EmptyJobRejectsAll`, `Matcher.EmptyIncludeRejectsAll`).
- When reading a group's history raises part-way, `scan_group` returns the matches
  collected before the error, not an empty list (bot.py, lines 92-94;
  `Scanner.PartialScanIsPrefix`).

## Model

| member | source | states |
|---|---|---|
| Keywords.ParseWellFormed | bot.py:15-17 | every parsed keyword is non-empty, has no surrounding whitespace, has no upper-case letter and contains no comma |
| Keywords.ParseMembers | bot.py:15-17 | a string is a keyword exactly when it is the stripped, lowered form of some non-blank piece between commas |
| Keywords.CleanMembers | bot.py:15 | the comprehension keeps exactly the stripped, lowered, non-blank pieces |
| Keywords.ParseAround | bot.py:15-17 | keywords keep input order: parsing `x,y` gives the keywords of `x` followed by those of `y` |
| Keywords.ParseSingle | bot.py:15-17 | a comma-free value gives no keyword when blank and otherwise exactly its stripped, lowered text |
| Keywords.ParseEmpty | bot.py:15 | an unset variable (default `""`) gives no keywords |
| Text.Strip | bot.py:15 | `strip()` removes exactly the whitespace margins; the result is empty exactly when the input is all whitespace |
| Text.JoinSplit | bot.py:15 | `split(",")` loses nothing: joining the pieces with commas gives back the input |
| Text.SplitJoin | bot.py:15 | splitting a comma-join of comma-free pieces gives back the pieces |
| Text.LowerIsLower | bot.py:29 | a lowered text has no upper-case letter, and lowering it again changes nothing |
| Text.ContainsIff | bot.py:31 | Python's `kw in text` holds exactly when `kw` occurs at some position of `text` |
| Matcher.AnyInIff | bot.py:31 | `any(kw in text for kw in kws)` holds exactly when some keyword occurs in the text |
| Matcher.MatchesFilterIff | bot.py:25-39 | a text matches exactly when it is non-empty and its lower-cased form mentions a job keyword and an include keyword and no exclude keyword |
| Matcher.EmptyJobRejectsAll | bot.py:31-33 | with no job keywords nothing matches |
| Matcher.EmptyIncludeRejectsAll | bot.py:35-39 | with no include keywords nothing matches |
| Matcher.CaseInsensitive | bot.py:29 | lower-casing a message first does not change whether it matches |
| Matcher.UpperKeywordNeverMentioned | bot.py:29-31 | a keyword containing an upper-case letter is never found in a lowered text |
| Fingerprint.NormalizeShape | bot.py:44 | a normalised text has no whitespace at either end, only single spaces between words, and no upper-case letter |
| Fingerprint.NormalizeIdempotent | bot.py:44 | normalising a normalised text changes nothing |
| Fingerprint.WordsSkipSpaces | bot.py:44 | `split()` ignores whitespace before the first word |
| Fingerprint.WordsPlain | bot.py:44 | a word followed by whitespace or by the end of the text is split off whole, and `split()` goes on with the rest; with the previous row this fixes `split()` on every text |
| Fingerprint.WordsJoin | bot.py:44 | splitting a space-join of words gives back the words, so the join loses nothing |
| Fingerprint.SameKeyIff | bot.py:42-45 | two texts share a fingerprint exactly when their lowered word sequences are equal |
| Fingerprint.IgnoresSpaceRuns | bot.py:44 | swapping one non-empty whitespace run for another leaves the fingerprint unchanged |
| Fingerprint.MarginsIgnored | bot.py:44 | whitespace added before or after a text leaves its fingerprint unchanged |
| Fingerprint.IgnoresCase | bot.py:44 | texts equal after lower-casing have the same fingerprint |
| Fingerprint.NormalizeTwoWords | bot.py:44 | two words around any whitespace run normalise to the lowered words around one space |
| Fingerprint.HelloWorld | bot.py:44 | `"Hello   World"` and `"hello world"` both normalise to `"hello world"` |
| Formatter.FormatMessage | bot.py:48-60 | the post is the fixed head (header, group, date, separators), then the message text verbatim, then a tail ending in the separator line of forty U+2501 characters |
| Formatter.ExtractText | bot.py:52-60 | any text read back from a post re-formats to exactly that post |
| Formatter.ExtractFormat | bot.py:58 | the message text is always recovered from its post |
| Formatter.FormatInjective | bot.py:52-60 | different messages with the same group and date give different posts |
| Groups.FindTargetSpec | bot.py:63-68 | the result is empty exactly when no dialog is a group with the exact name; otherwise it is the entity of the first such dialog |
| Groups.CandidatesSpec | bot.py:71-80 | a dialog is scanned exactly when it is listed, is a group or a non-broadcast channel and does not share the target's id; scan order is dialog order |
| Groups.TargetNotScanned | bot.py:112 | the target group is never scanned |
| Groups.BroadcastNotScanned | bot.py:77-78 | broadcast channels are never scanned |
| Groups.SameNameOtherIdScanned | bot.py:112 | exclusion is by id: another group with the target's name is still scanned |
| Groups.UsersNotScanned | bot.py:75 | private chats with users are never scanned |
| Scanner.TakeWhileInWindow | bot.py:87-89 | the messages seen before `break` are the longest prefix dated at or after `since` |
| Scanner.ScanGroup | bot.py:83-94 | `scan_group` returns the wanted messages of the in-window prefix of what was delivered, and reads exactly one message past that prefix when it stops early |
| Scanner.KeepStep | bot.py:90-91 | each message read is appended exactly when it has text and passes the filter |
| Scanner.ScanMembers | bot.py:88-91 | every returned message is from the history, dated at or after `since`, has text and passes the filter |
| Scanner.PartialScanIsPrefix | bot.py:92-94 | after a read error the matches returned are a prefix of those an error-free scan returns |
| Scanner.EarlyStopLosesNothing | bot.py:87-89 | on a newest-first history, stopping at the first old message equals filtering all messages by date |
| Collect.TagMembers | bot.py:134-135 | a job is among a group's tagged matches exactly when it carries the group's name and one of its matched messages |
| Collect.FoundIsGathered | bot.py:131-135 | `total_found` equals the number of gathered jobs |
| Collect.GatherMembers | bot.py:126-135 | a job is gathered exactly when its message is a match of some scanned group and it carries that group's name |
| Collect.GatheredAreWanted | bot.py:126-135 | every gathered job is in the window, has text, passes the filter and names a scanned group |
| Collect.GatherAppend | bot.py:126-135 | matches build up in scan order: gathering `a + b` gives the jobs of `a` followed by those of `b` |
| Duplicates.DedupFrom | bot.py:142-146 | no kept job has a fingerprint already in the seen set, and at most as many jobs come out as went in |
| Duplicates.DedupSubseq | bot.py:142-146 | the unique jobs are a subsequence of the gathered jobs |
| Duplicates.DedupDistinct | bot.py:142-146 | no two unique jobs share a fingerprint |
| Duplicates.DedupKeys | bot.py:142-146 | every fingerprint among the gathered jobs is represented among the unique jobs |
| Duplicates.DedupKeepsFirst | bot.py:142-146 | each unique job is the first gathered job with its fingerprint |
| Duplicates.FirstWithAt | bot.py:143-146 | the first job with a given fingerprint sits no later than any job carrying it |
| Duplicates.DedupCount | bot.py:148 | the number of unique jobs is the number of distinct fingerprints, so `total_duplicates` is never negative |
| Duplicates.DedupIdempotent | bot.py:139-146 | deduplicating again removes nothing |
| Duplicates.DistinctPerm | bot.py:150 | reordering unique jobs keeps their fingerprints distinct |
| Duplicates.DedupJobs | bot.py:139-146 | the `seen_hashes` loop computes the deduplicated list |
| Ordering.SortPerm | bot.py:150 | the sort is a permutation of its input |
| Ordering.SortOrdered | bot.py:150 | the sorted jobs are newest first |
| Ordering.SortStable | bot.py:150 | for every date, jobs with that date keep their input order |
| Ordering.SortKeepsOrdered | bot.py:150 | a list already newest first is left unchanged |
| Ordering.NewestComesFirst | bot.py:150 | the first job of the result is at least as new as every input job |
| Relay.Successes | bot.py:159-168 | there are `CountUpTo(ok, n)` successful attempts among the first `n` sends |
| Relay.SuccessesSound | bot.py:159-168 | the successful attempts are increasing indices of sends that went through |
| Relay.SuccessesComplete | bot.py:160-168 | every attempt that goes through is recorded, whatever failed before it |
| Relay.Posts | bot.py:159-163 | there are as many posts as successful sends, never more than jobs |
| Relay.PostsStep | bot.py:160-163 | one more attempt adds its post exactly when it succeeds |
| Relay.RelayAll | bot.py:157-168 | the send loop posts, in order, the rendering of each job whose send succeeds, and `total_sent` counts them |
| Relay.AllDelivered | bot.py:159-163 | when every send succeeds, every unique job is posted in order |
| Relay.PostedIff | bot.py:160-168 | a job is posted exactly when its own send succeeds |
| Bot.Run | bot.py:97-168 | a run stops early exactly when there is no target group. Otherwise it scans every candidate; found is the number of gathered jobs; unique is the number of distinct fingerprints; duplicates is found minus unique; sent counts successful sends, at most unique; posts are the successful sends in order |
| Bot.UniqueJobsSpec | bot.py:139-150 | the jobs relayed are newest first, carry pairwise different fingerprints, cover every fingerprint found, and each is the first job found with its fingerprint |
| Bot.RepostDropped | bot.py:142-146 | a repost, i.e. a later job whose normalised text equals an earlier job's, is never relayed |

## Left out

- Telethon and the network: login, `get_me`, `iter_dialogs`, `iter_messages` and
  `send_message` are replaced by the parameters described above. `asyncio` and
  concurrency do not arise: the program awaits one call at a time.
- `asyncio.sleep(1.5)` between sends (line 166): it has no effect on results.
- Every `print`, the progress lines and the final report's formatting (lines 101-178).
  The report's numbers are the `Summary` counters.
- Environment parsing: `load_dotenv`, `API_ID`, `API_HASH` and `PHONE` (lines 9-13),
  `int(DAYS_BACK)` and the `TARGET_GROUP` default (lines 19-20). The keyword
  variables are modelled from their string value on.
- Clock and calendar: `datetime.now() - timedelta(days=DAYS_BACK)` becomes the
  parameter `since` (line 119). Dates are integers, so `replace(tzinfo=utc)` (line 88)
  is the identity.
- Formatter.FormatMessage: takes the date already rendered, as a string.
  `strftime("%d/%m/%Y %H:%M")` (line 50) is the parameter `fmt` of `Bot.Render` and
  `Bot.Run`, so date rendering is not modelled.
- Groups.ScanCandidates: `client.iter_dialogs()` is called twice, once in
  `find_target_group` (line 65) and once in `get_all_groups` (line 74). `Bot.Run` takes
  one dialog listing for both calls. It therefore assumes the account's dialogs do not
  change, or change order, between the target lookup and the group scan.
- Bot.JobKey: the md5 digest (line 45) is taken as one-to-one on the normalised text.
  An md5 collision would make the program drop a distinct job; the model does not
  capture that.
- Text.Lower: only ASCII and Latin-1 upper-case letters are lowered. Python's full
  Unicode case mapping is not modelled, including lowerings that change length such
  as U+0130.
- Scanner.ScanGroup: an exception is modelled only as the history read failing at
  one index. `matches_filter` cannot raise on a string, so no other error path exists.
- Groups.IsGroup: `dialog.is_group` and `dialog.is_channel` follow Telethon's
  definitions, written against the `Entity` datatype. Telethon's source is not part
  of this model.
- Messages without text: `None` and `""` are both falsy at line 90 and are both
  represented by `""`.
