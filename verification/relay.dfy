/** Posting the unique jobs to the target group (bot.py, lines 157-168): one
    `send_message` per job, newest first; a send that raises is reported and
    skipped, and `total_sent` counts the sends that went through. Whether the
    `i`-th send goes through is the parameter `ok(i)`; the text posted for a
    job is given by `render`. */
module Relay {
  import opened Util
  import opened Collect

  /** The attempts among the first `n` that succeed, in increasing order. */
  function Successes(ok: nat -> bool, n: nat): (r: seq<nat>)
    ensures |r| == CountUpTo(ok, n)
  {
    if n == 0 then []
    else Successes(ok, n - 1) + if ok(n - 1) then [n - 1] else []
  }

  /** Only successful attempts among the first `n` are listed, in increasing
      order. */
  lemma {:induction false} SuccessesSound(ok: nat -> bool, n: nat)
    ensures forall k :: 0 <= k < |Successes(ok, n)| ==> Successes(ok, n)[k] < n && ok(Successes(ok, n)[k])
    ensures forall k, l :: 0 <= k < l < |Successes(ok, n)| ==> Successes(ok, n)[k] < Successes(ok, n)[l]
    decreases n
  {
    if n > 0 {
      SuccessesSound(ok, n - 1);
    }
  }

  /** Every successful attempt is recorded, at some position of the list of
      successes: a failure at one index does not prevent any later send. */
  lemma {:induction false} SuccessesComplete(ok: nat -> bool, n: nat, i: nat) returns (k: nat)
    requires i < n && ok(i)
    ensures k < |Successes(ok, n)| && Successes(ok, n)[k] == i
    decreases n
  {
    var prev := Successes(ok, n - 1);
    assert Successes(ok, n) == prev + if ok(n - 1) then [n - 1] else [];
    if i < n - 1 {
      k := SuccessesComplete(ok, n - 1, i);
      assert Successes(ok, n)[k] == prev[k];
    } else {
      k := |prev|;
    }
  }

  /** The posts made, in order. */
  function Posts(jobs: seq<Job>, ok: nat -> bool, render: Job -> string): (r: seq<string>)
    ensures |r| == CountUpTo(ok, |jobs|) <= |jobs|
  {
    var idx := Successes(ok, |jobs|);
    SuccessesSound(ok, |jobs|);
    seq(|idx|, k requires 0 <= k < |idx| => render(jobs[idx[k]]))
  }

  /** The loop of lines 159-168. */
  method RelayAll(jobs: seq<Job>, ok: nat -> bool, render: Job -> string)
    returns (totalSent: nat, posted: seq<string>)
    ensures posted == Posts(jobs, ok, render)
    ensures |posted| == CountUpTo(ok, |jobs|)
    ensures totalSent == |posted|
  {
    totalSent := 0;
    posted := [];
    var i := 0;
    while i < |jobs|
      invariant i <= |jobs|
      invariant posted == Posts(jobs[..i], ok, render)
      invariant totalSent == CountUpTo(ok, i)
    {
      PostsStep(jobs, ok, render, i);
      if ok(i) {
        posted := posted + [render(jobs[i])];
        totalSent := totalSent + 1;
      }
      i := i + 1;
    }
    assert jobs[..i] == jobs;
  }

  /** One more attempt adds its post exactly when it succeeds. */
  lemma PostsStep(jobs: seq<Job>, ok: nat -> bool, render: Job -> string, i: nat)
    requires i < |jobs|
    ensures Posts(jobs[..i + 1], ok, render)
         == Posts(jobs[..i], ok, render) + if ok(i) then [render(jobs[i])] else []
  {
    var idx := Successes(ok, i);
    SuccessesSound(ok, i);
    assert forall k :: 0 <= k < |idx| ==> jobs[..i + 1][idx[k]] == jobs[..i][idx[k]];
  }

  /** When every send goes through, every job is posted, in order. */
  lemma AllDelivered(jobs: seq<Job>, ok: nat -> bool, render: Job -> string)
    requires forall i :: 0 <= i < |jobs| ==> ok(i)
    ensures |Posts(jobs, ok, render)| == |jobs|
    ensures forall i :: 0 <= i < |jobs| ==> Posts(jobs, ok, render)[i] == render(jobs[i])
  {
    AllSucceed(ok, |jobs|);
  }

  /** With every attempt succeeding, the successes are all the indices. */
  lemma {:induction false} AllSucceed(ok: nat -> bool, n: nat)
    requires forall i :: 0 <= i < n ==> ok(i)
    ensures forall k :: 0 <= k < |Successes(ok, n)| ==> Successes(ok, n)[k] == k
    ensures |Successes(ok, n)| == n
    decreases n
  {
    if n > 0 {
      AllSucceed(ok, n - 1);
    }
  }

  /** The `k`-th post is the rendering of the job of the `k`-th success. */
  lemma PostAt(jobs: seq<Job>, ok: nat -> bool, render: Job -> string, k: nat)
    requires k < |Successes(ok, |jobs|)|
    ensures Successes(ok, |jobs|)[k] < |jobs|
    ensures Posts(jobs, ok, render)[k] == render(jobs[Successes(ok, |jobs|)[k]])
  {
    SuccessesSound(ok, |jobs|);
  }

  /** A job is posted exactly when its own send succeeds, whatever happened
      to the sends before it. */
  lemma {:induction false} PostedIff(jobs: seq<Job>, ok: nat -> bool, render: Job -> string, i: nat)
    requires i < |jobs|
    ensures ok(i) <==> i in Successes(ok, |jobs|)
    ensures ok(i) ==> render(jobs[i]) in Posts(jobs, ok, render)
  {
    SuccessesSound(ok, |jobs|);
    if ok(i) {
      var k := SuccessesComplete(ok, |jobs|, i);
      PostAt(jobs, ok, render, k);
    }
  }
}
