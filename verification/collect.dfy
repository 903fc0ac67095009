/** Gathering the matches of every scanned group (bot.py, lines 123-137):
    each match becomes a job tagged with its group's name, in group order and,
    within a group, in scan order; `total_found` adds up the match counts. */
module Collect {
  import opened Matcher
  import opened Scanner
  import opened Groups

  /** One entry of `all_jobs`: the tuple `(msg, dialog.name)`. */
  datatype Job = Job(msg: Message, group: string)

  /** What reading one group's history yields; the network is this parameter. */
  type Histories = Entity -> History

  /** The matches of one group, tagged with its name (lines 134-135). */
  function Tag(ms: seq<Message>, name: string): seq<Job>
  {
    seq(|ms|, i requires 0 <= i < |ms| => Job(ms[i], name))
  }

  /** The matches of group `g`. */
  function Matches(g: Dialog, since: int, f: Filters, hs: Histories): seq<Message>
  {
    ScanResult(hs(g.entity), since, f)
  }

  /** `scan_group` with the window and the filter fixed, as one function of
      the group. */
  function PerGroup(since: int, f: Filters, hs: Histories): Dialog -> seq<Message>
  {
    (g: Dialog) => Matches(g, since, f, hs)
  }

  /** `all_jobs` after the groups `gs` have been scanned in order, `per`
      giving each group's matches. */
  function Gather(gs: seq<Dialog>, per: Dialog -> seq<Message>): seq<Job>
  {
    if gs == [] then []
    else
      var g := gs[|gs| - 1];
      Gather(gs[..|gs| - 1], per) + Tag(per(g), g.name)
  }

  /** `total_found` after the groups `gs`: the sum of their match counts. */
  function TotalFound(gs: seq<Dialog>, per: Dialog -> seq<Message>): nat
  {
    if gs == [] then 0
    else TotalFound(gs[..|gs| - 1], per) + |per(gs[|gs| - 1])|
  }

  /** Scanning one more group `g` appends its tagged matches. */
  lemma GatherSnoc(gs: seq<Dialog>, g: Dialog, per: Dialog -> seq<Message>)
    ensures Gather(gs + [g], per) == Gather(gs, per) + Tag(per(g), g.name)
  {
    assert (gs + [g])[..|gs|] == gs;
  }

  /** Matches build up in scan order however the groups are split: the
      jobs of `a + b` are those of `a` followed by those of `b`. */
  lemma {:induction false} GatherAppend(a: seq<Dialog>, b: seq<Dialog>, per: Dialog -> seq<Message>)
    ensures Gather(a + b, per) == Gather(a, per) + Gather(b, per)
    decreases |b|
  {
    if b == [] {
      assert a + b == a;
    } else {
      var b', g := b[..|b| - 1], b[|b| - 1];
      var t := Tag(per(g), g.name);
      assert b == b' + [g];
      assert a + b == (a + b') + [g];
      calc {
        Gather(a + b, per);
        { GatherSnoc(a + b', g, per); }
        Gather(a + b', per) + t;
        { GatherAppend(a, b', per); }
        Gather(a, per) + Gather(b', per) + t;
        { GatherSnoc(b', g, per); }
        Gather(a, per) + Gather(b, per);
      }
    }
  }

  /** The running count equals the number of gathered jobs. */
  lemma {:induction false} FoundIsGathered(gs: seq<Dialog>, per: Dialog -> seq<Message>)
    ensures TotalFound(gs, per) == |Gather(gs, per)|
    decreases |gs|
  {
    if gs != [] {
      FoundIsGathered(gs[..|gs| - 1], per);
    }
  }

  /** A job is among the tagged matches exactly when it carries the name and
      its message is one of the matches. */
  lemma TagMembers(ms: seq<Message>, name: string, j: Job)
    ensures j in Tag(ms, name) <==> j.group == name && j.msg in ms
  {
    var t := Tag(ms, name);
    if j.group == name && j.msg in ms {
      var i :| 0 <= i < |ms| && ms[i] == j.msg;
      assert t[i] == j;
    }
  }

  /** A job is gathered exactly when it is a match of some scanned group and
      carries that group's name. */
  lemma {:induction false} GatherMembers(gs: seq<Dialog>, per: Dialog -> seq<Message>, j: Job)
    ensures j in Gather(gs, per) <==>
      exists k :: 0 <= k < |gs| && j.group == gs[k].name && j.msg in per(gs[k])
    decreases |gs|
  {
    if gs != [] {
      var init := gs[..|gs| - 1];
      var g := gs[|gs| - 1];
      GatherMembers(init, per, j);
      TagMembers(per(g), g.name, j);
      assert forall k :: 0 <= k < |init| ==> init[k] == gs[k];
    }
  }

  /** Every gathered job is a message inside the window that passes the
      filter, taken from a group that was scanned. */
  lemma GatheredAreWanted(gs: seq<Dialog>, since: int, f: Filters, hs: Histories, j: Job)
    ensures j in Gather(gs, PerGroup(since, f, hs)) ==>
      && j.msg.date >= since && j.msg.text != [] && MatchesFilter(j.msg.text, f)
      && exists g :: g in gs && g.name == j.group
  {
    if j in Gather(gs, PerGroup(since, f, hs)) {
      GatherMembers(gs, PerGroup(since, f, hs), j);
      var k :| 0 <= k < |gs| && j.group == gs[k].name && j.msg in PerGroup(since, f, hs)(gs[k]);
      ScanMembers(hs(gs[k].entity), since, f);
    }
  }

  /** Scanning one more group appends its tagged matches: the step of the
      loop of lines 126-137. */
  lemma GatherStep(gs: seq<Dialog>, i: nat, per: Dialog -> seq<Message>)
    requires i < |gs|
    ensures Gather(gs[..i + 1], per) == Gather(gs[..i], per) + Tag(per(gs[i]), gs[i].name)
    ensures TotalFound(gs[..i + 1], per) == TotalFound(gs[..i], per) + |per(gs[i])|
  {
    assert gs[..i + 1][..i] == gs[..i];
  }
}
