/** The match predicate `matches_filter` (bot.py, lines 25-39): case-insensitive
    substring containment, gated three times — some job keyword, then some
    include keyword, then no exclude keyword. */
module Matcher {
  import opened Text

  /** The three keyword lists `KEYWORDS_JOB`, `KEYWORDS_INCLUDE` and
      `KEYWORDS_EXCLUDE`, passed in instead of read from module globals. */
  datatype Filters = Filters(jobs: seq<string>, includes: seq<string>, excludes: seq<string>)

  /** Some keyword of `kws` occurs at some position of `text`. */
  ghost predicate Mentions(kws: seq<string>, text: string)
  {
    exists j: nat, i: nat :: j < |kws| && OccursAt(text, kws[j], i)
  }

  /** Python's `any(kw in text for kw in kws)`. */
  function AnyIn(kws: seq<string>, text: string): bool
  {
    if kws == [] then false else Contains(text, kws[0]) || AnyIn(kws[1..], text)
  }

  /** `any` is true exactly when some keyword occurs somewhere in the text;
      for an empty list it is false. */
  lemma {:induction false} AnyInIff(kws: seq<string>, text: string)
    ensures AnyIn(kws, text) <==> Mentions(kws, text)
    decreases |kws|
  {
    if kws != [] {
      AnyInIff(kws[1..], text);
      ContainsIff(text, kws[0]);
      if Contains(text, kws[0]) {
        var i: nat :| OccursAt(text, kws[0], i);
        assert OccursAt(text, kws[0], i);
      } else {
        assert forall j :: 0 < j < |kws| ==> kws[j] == kws[1..][j - 1];
        assert Mentions(kws[1..], text) ==> Mentions(kws, text);
      }
    }
  }

  /** `matches_filter(text)`: false for empty text; otherwise the lowered text
      must contain a job keyword, then an include keyword, then no exclude
      keyword. */
  function MatchesFilter(text: string, f: Filters): bool
  {
    if text == [] then false
    else
      var t := Lower(text);
      var isJob := AnyIn(f.jobs, t);
      if !isJob then false
      else
        var hasInclude := AnyIn(f.includes, t);
        var hasExclude := AnyIn(f.excludes, t);
        hasInclude && !hasExclude
  }

  /** A text matches exactly when it is non-empty and its lowered form
      mentions a job keyword and an include keyword and no exclude keyword.
      An empty list mentions nothing, so an empty job list or an empty
      include list rejects every text. */
  lemma MatchesFilterIff(text: string, f: Filters)
    ensures MatchesFilter(text, f) <==>
      && text != []
      && Mentions(f.jobs, Lower(text))
      && Mentions(f.includes, Lower(text))
      && !Mentions(f.excludes, Lower(text))
  {
    AnyInIff(f.jobs, Lower(text));
    AnyInIff(f.includes, Lower(text));
    AnyInIff(f.excludes, Lower(text));
  }

  /** With no job keywords configured nothing matches: the job gate is not skipped. */
  lemma EmptyJobRejectsAll(text: string, f: Filters)
    requires f.jobs == []
    ensures !MatchesFilter(text, f)
  {
  }

  /** With no include keywords configured nothing matches. */
  lemma EmptyIncludeRejectsAll(text: string, f: Filters)
    requires f.includes == []
    ensures !MatchesFilter(text, f)
  {
  }

  /** Matching ignores the case of the message. */
  lemma CaseInsensitive(text: string, f: Filters)
    ensures MatchesFilter(Lower(text), f) == MatchesFilter(text, f)
  {
    LowerIsLower(text);
  }

  /** A keyword with an upper-case letter can never be the one that is found,
      which is why configured keywords are lowered when parsed. */
  lemma UpperKeywordNeverMentioned(kw: string, text: string)
    requires exists j :: 0 <= j < |kw| && IsUpper(kw[j])
    ensures !Mentions([kw], Lower(text))
  {
    UpperNeverInLower(text, kw);
    ContainsIff(Lower(text), kw);
    forall j: nat, i: nat | j < 1 ensures !OccursAt(Lower(text), [kw][j], i) {
      assert [kw][j] == kw;
    }
  }
}
