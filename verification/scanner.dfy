/** The per-group scan `scan_group` (bot.py, lines 83-94): read the group's
    history newest first, stop at the first message older than `since`, keep
    the messages with text that pass `matches_filter`, and on a read error
    return what was collected so far. */
module Scanner {
  import opened Util
  import opened Matcher

  /** A message as the scan sees it. `text` is `""` for a message without
      text (Telethon's `None` and `""` are both falsy); `date` is the instant
      as an integer, so the timezone normalisation of line 88 is the identity. */
  datatype Message = Message(id: int, text: string, date: int)

  /** What `client.iter_messages(entity)` produces for one group: its
      messages newest first, and `failAt == Some(k)` when fetching the
      message at index `k` raises instead of returning it. */
  datatype History = History(msgs: seq<Message>, failAt: Option<nat>)

  /** The messages the iterator hands out before it ends or raises. */
  function Delivered(h: History): seq<Message>
  {
    match h.failAt
    case None => h.msgs
    case Some(k) => if k < |h.msgs| then h.msgs[..k] else h.msgs
  }

  /** The longest prefix of `ms` dated at or after `since`: what the loop
      sees before `break`. */
  function TakeWhileInWindow(ms: seq<Message>, since: int): (r: seq<Message>)
    ensures IsPrefix(r, ms)
    ensures forall i :: 0 <= i < |r| ==> r[i].date >= since
    ensures |r| < |ms| ==> ms[|r|].date < since
  {
    if ms == [] || ms[0].date < since then []
    else
      var rest := TakeWhileInWindow(ms[1..], since);
      assert [ms[0]] + ms[1..][..|rest|] == ms[..|rest| + 1];
      [ms[0]] + rest
  }

  /** The condition of line 90: the message has text and passes the filter. */
  predicate Wanted(m: Message, f: Filters)
  {
    m.text != [] && MatchesFilter(m.text, f)
  }

  function KeepWanted(ms: seq<Message>, f: Filters): seq<Message>
  {
    Filter((m: Message) => Wanted(m, f), ms)
  }

  /** What `scan_group` returns, as `filter(wanted, takeWhile(in window, delivered))`. */
  function ScanResult(h: History, since: int, f: Filters): seq<Message>
  {
    KeepWanted(TakeWhileInWindow(Delivered(h), since), f)
  }

  /** `scan_group`. `examined` counts the messages fetched from the iterator:
      reading stops right after the first message older than `since`. */
  method ScanGroup(h: History, since: int, f: Filters) returns (matched: seq<Message>, examined: nat)
    ensures matched == ScanResult(h, since, f)
    ensures examined <= |Delivered(h)|
    ensures var w := TakeWhileInWindow(Delivered(h), since);
      examined == if |w| < |Delivered(h)| then |w| + 1 else |w|
  {
    matched := [];
    var i := 0;
    while true
      invariant i <= |Delivered(h)|
      invariant forall j :: 0 <= j < i ==> h.msgs[j].date >= since
      invariant matched == KeepWanted(h.msgs[..i], f)
      decreases |h.msgs| - i
    {
      if h.failAt == Some(i) || i == |h.msgs| {
        // the iterator raised (caught at line 92) or is exhausted
        ScanEnds(h, since, f, i);
        examined := i;
        return;
      }
      var msg := h.msgs[i];
      KeepStep(h.msgs, i, f);
      i := i + 1;
      if msg.date < since {
        ScanStops(h, since, f, i - 1);
        examined := i;
        return;
      }
      if msg.text != [] && MatchesFilter(msg.text, f) {
        matched := matched + [msg];
      }
    }
  }

  /** The loop leaves through the end of the delivered messages with all of
      them inside the window. */
  lemma ScanEnds(h: History, since: int, f: Filters, i: nat)
    requires i <= |Delivered(h)|
    requires h.failAt == Some(i) || i == |h.msgs|
    requires forall j :: 0 <= j < i ==> h.msgs[j].date >= since
    ensures KeepWanted(h.msgs[..i], f) == ScanResult(h, since, f)
    ensures i == |TakeWhileInWindow(Delivered(h), since)| == |Delivered(h)|
  {
    var d := Delivered(h);
    assert |d| == i;
    assert d == h.msgs[..i];
    TakeWhileAll(d, since, i);
    assert d[..i] == d;
  }

  /** The loop leaves at message `n`, the first one older than `since`. */
  lemma ScanStops(h: History, since: int, f: Filters, n: nat)
    requires n < |Delivered(h)| && h.msgs[n].date < since
    requires forall j :: 0 <= j < n ==> h.msgs[j].date >= since
    ensures KeepWanted(h.msgs[..n], f) == ScanResult(h, since, f)
    ensures n == |TakeWhileInWindow(Delivered(h), since)| < |Delivered(h)|
  {
    var d := Delivered(h);
    assert d[..n] == h.msgs[..n];
    TakeWhileStop(d, since, n);
  }

  /** One more message read extends the kept list by that message exactly
      when it is wanted. */
  lemma KeepStep(ms: seq<Message>, i: nat, f: Filters)
    requires i < |ms|
    ensures KeepWanted(ms[..i + 1], f)
         == KeepWanted(ms[..i], f) + if Wanted(ms[i], f) then [ms[i]] else []
  {
    assert ms[..i + 1] == ms[..i] + [ms[i]];
    FilterAppend((m: Message) => Wanted(m, f), ms[..i], [ms[i]]);
  }

  /** Every message the scan keeps was delivered, is inside the window and
      passes the filter. */
  lemma ScanMembers(h: History, since: int, f: Filters)
    ensures forall m :: m in ScanResult(h, since, f) ==>
      m in h.msgs && m.date >= since && Wanted(m, f)
  {
    var w := TakeWhileInWindow(Delivered(h), since);
    FilterSpec((m: Message) => Wanted(m, f), w);
    forall m | m in KeepWanted(w, f) ensures m in h.msgs && m.date >= since {
      var j :| 0 <= j < |w| && w[j] == m;
      assert Delivered(h)[j] == m;
    }
  }

  /** When every message of `ms` is in the window, the prefix taken is all of it. */
  lemma TakeWhileAll(ms: seq<Message>, since: int, n: nat)
    requires n == |ms|
    requires forall j :: 0 <= j < n ==> ms[j].date >= since
    ensures TakeWhileInWindow(ms, since) == ms[..n]
  {
  }

  /** When message `n` is the first one out of the window, the prefix taken
      is the `n` messages before it. */
  lemma TakeWhileStop(ms: seq<Message>, since: int, n: nat)
    requires n < |ms| && ms[n].date < since
    requires forall j :: 0 <= j < n ==> ms[j].date >= since
    ensures TakeWhileInWindow(ms, since) == ms[..n]
  {
  }

  /** A read error part-way through keeps the matches found before it: they
      are a prefix of what the uninterrupted scan would have returned. */
  lemma PartialScanIsPrefix(msgs: seq<Message>, k: nat, since: int, f: Filters)
    ensures IsPrefix(ScanResult(History(msgs, Some(k)), since, f),
                     ScanResult(History(msgs, None), since, f))
  {
    var d := Delivered(History(msgs, Some(k)));
    TakeWhilePrefix(d, msgs, since);
    FilterPrefix((m: Message) => Wanted(m, f),
                 TakeWhileInWindow(d, since), TakeWhileInWindow(msgs, since));
  }

  /** The window prefix of a prefix is a prefix of the window prefix. */
  lemma TakeWhilePrefix(a: seq<Message>, b: seq<Message>, since: int)
    requires IsPrefix(a, b)
    ensures IsPrefix(TakeWhileInWindow(a, since), TakeWhileInWindow(b, since))
  {
  }

  /** Nothing in `ms` is dated at or after `since` once the newest is not and
      dates never increase. */
  predicate InReverseDateOrder(ms: seq<Message>)
  {
    forall i, j :: 0 <= i < j < |ms| ==> ms[i].date >= ms[j].date
  }

  /** On a history delivered newest first, stopping at the first old message
      loses nothing: the scan equals filtering every message by date. */
  lemma {:induction false} EarlyStopLosesNothing(ms: seq<Message>, since: int)
    requires InReverseDateOrder(ms)
    ensures TakeWhileInWindow(ms, since) == Filter((m: Message) => m.date >= since, ms)
    decreases |ms|
  {
    if ms != [] {
      EarlyStopLosesNothing(ms[1..], since);
    }
  }
}
