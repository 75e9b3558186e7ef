/**
 * The delivery part of `Mailer.Send` (internal/mailer/mailer.go:49-127).
 * Rendering the templates and building the message may fail first; then the
 * message is handed to the SMTP client up to three times, with a 500 ms pause
 * after every failed attempt but the last. The SMTP client is an abstract
 * fallible action, `dial(i)` being the error of attempt `i` (None on
 * success), and pauses are recorded in a trace instead of slept.
 */
module Mailer {
  import opened Wrappers

  const MaxAttempts: nat := 3
  const PauseMs: nat := 500

  type SendError = string

  /** What happened, in order: an attempt to send, or a pause of some milliseconds. */
  datatype Event = Attempt(n: nat) | Pause(ms: nat)

  /** The attempts from `i` on, as the loop makes them: its final error and its events. */
  function Retry(dial: nat -> Option<SendError>, i: nat): (r: (Option<SendError>, seq<Event>))
    requires 1 <= i <= MaxAttempts
    ensures r.0.None? <==> exists j :: i <= j <= MaxAttempts && dial(j).None?
    ensures r.0.Some? ==> r.0 == dial(MaxAttempts)
    ensures r.1 != [] && r.1[0] == Attempt(i) && r.1[|r.1| - 1].Attempt?
    decreases MaxAttempts - i
  {
    var err := dial(i);
    if err.None? then (None, [Attempt(i)])
    else if i == MaxAttempts then (err, [Attempt(i)])
    else
      var rest := Retry(dial, i + 1);
      (rest.0, [Attempt(i), Pause(PauseMs)] + rest.1)
  }

  /** Attempts 1 to `k`, with a pause between each two: what happens when attempt `k` is the last. */
  function Schedule(k: nat): (s: seq<Event>)
    requires 1 <= k <= MaxAttempts
    ensures |s| == 2 * k - 1 && s[|s| - 1] == Attempt(k)
  {
    if k == 1 then [Attempt(1)] else Schedule(k - 1) + [Pause(PauseMs), Attempt(k)]
  }

  /** The number of pauses in a trace. */
  function Pauses(s: seq<Event>): (n: nat)
  {
    if s == [] then 0 else (if s[0].Pause? then 1 else 0) + Pauses(s[1..])
  }

  /**
   * `Send`: `prepared` is the error of the first failing preparation step
   * (template parsing or execution, `To`, `From`), if any, which is returned
   * before any attempt is made.
   */
  method Send(prepared: Option<SendError>, dial: nat -> Option<SendError>) returns (err: Option<SendError>, trace: seq<Event>)
    ensures prepared.Some? ==> err == prepared && trace == []
    ensures prepared.None? ==> (err, trace) == Retry(dial, 1)
  {
    err, trace := None, [];
    if prepared.Some? {
      return prepared, trace;
    }
    var i := 1;
    while i <= MaxAttempts
      invariant 1 <= i <= MaxAttempts + 1
      invariant i <= MaxAttempts ==> trace + Retry(dial, i).1 == Retry(dial, 1).1
      invariant i <= MaxAttempts ==> Retry(dial, i).0 == Retry(dial, 1).0
      invariant i == MaxAttempts + 1 ==> (err, trace) == Retry(dial, 1)
    {
      err := dial(i);
      trace := trace + [Attempt(i)];
      if err.None? {
        assert Retry(dial, i) == (None, [Attempt(i)]);
        return;
      }
      if i != MaxAttempts {
        RetryUnfold(dial, i);
        trace := trace + [Pause(PauseMs)];
      } else {
        assert Retry(dial, i) == (err, [Attempt(i)]);
      }
      i := i + 1;
    }
  }

  /** Delivery succeeds iff one of the three attempts succeeds. */
  lemma RetrySucceedsIff(dial: nat -> Option<SendError>)
    ensures Retry(dial, 1).0.None? <==> exists i :: 1 <= i <= MaxAttempts && dial(i).None?
  {
    assert Retry(dial, 2).0.None? <==> dial(2).None? || dial(3).None?;
  }

  /**
   * When attempt `k` is the first to succeed, exactly `k` attempts are made,
   * nothing happens after attempt `k`, and each earlier attempt is followed by
   * one pause.
   */
  lemma {:induction false} RetryStopsAtFirstSuccess(dial: nat -> Option<SendError>, k: nat)
    requires 1 <= k <= MaxAttempts && dial(k).None?
    requires forall j :: 1 <= j < k ==> dial(j).Some?
    ensures Retry(dial, 1).0 == None && Retry(dial, 1).1 == Schedule(k)
    ensures Pauses(Retry(dial, 1).1) == k - 1
  {
    if k == 1 {
      assert Retry(dial, 1) == (None, [Attempt(1)]);
      assert Retry(dial, 1).1 == Schedule(k);
    } else if k == 2 {
      assert dial(1).Some?;
      RetryUnfold(dial, 1);
      assert Retry(dial, 2) == (None, [Attempt(2)]);
      assert Schedule(2) == [Attempt(1), Pause(PauseMs), Attempt(2)];
      assert Retry(dial, 1).1 == Schedule(k);
    } else {
      assert dial(1).Some? && dial(2).Some?;
      RetryUnfold(dial, 2);
      RetryUnfold(dial, 1);
      assert Retry(dial, 3) == (None, [Attempt(3)]);
      assert Retry(dial, 1).1 == [Attempt(1), Pause(PauseMs)] + ([Attempt(2), Pause(PauseMs)] + [Attempt(3)]);
      assert Schedule(3) == [Attempt(1), Pause(PauseMs), Attempt(2), Pause(PauseMs), Attempt(3)];
      assert Retry(dial, 1).0 == None;
      assert Retry(dial, 1).1 == Schedule(k);
    }
    PausesOfSchedule(k);
  }

  /** When all three attempts fail, the third error is returned after three attempts and exactly two pauses. */
  lemma RetryAllFail(dial: nat -> Option<SendError>)
    requires forall i :: 1 <= i <= MaxAttempts ==> dial(i).Some?
    ensures Retry(dial, 1).0 == dial(3) && Retry(dial, 1).1 == Schedule(3)
    ensures Pauses(Retry(dial, 1).1) == 2
  {
    assert dial(1).Some? && dial(2).Some? && dial(3).Some?;
    RetryUnfold(dial, 2);
    RetryUnfold(dial, 1);
    assert Retry(dial, 3) == (dial(3), [Attempt(3)]);
    assert Retry(dial, 1).1 == [Attempt(1), Pause(PauseMs)] + ([Attempt(2), Pause(PauseMs)] + [Attempt(3)]);
    assert Schedule(3) == [Attempt(1), Pause(PauseMs), Attempt(2), Pause(PauseMs), Attempt(3)];
    PausesOfSchedule(3);
  }

  /** One step of the loop: a failed attempt before the last is followed by a pause and the next attempt. */
  lemma RetryUnfold(dial: nat -> Option<SendError>, i: nat)
    requires 1 <= i < MaxAttempts && dial(i).Some?
    ensures Retry(dial, i).0 == Retry(dial, i + 1).0
    ensures Retry(dial, i).1 == [Attempt(i), Pause(PauseMs)] + Retry(dial, i + 1).1
  {
  }

  /** Every pause in a schedule lies between two attempts; there are `k - 1` of them. */
  lemma {:induction false} PausesOfSchedule(k: nat)
    requires 1 <= k <= MaxAttempts
    ensures Pauses(Schedule(k)) == k - 1
    ensures forall j :: 0 <= j < |Schedule(k)| ==> (Schedule(k)[j].Pause? <==> j % 2 == 1)
  {
    if k > 1 {
      PausesOfSchedule(k - 1);
      PausesAppend(Schedule(k - 1), [Pause(PauseMs), Attempt(k)]);
      assert Pauses([Attempt(k)]) == 0;
    }
  }

  lemma {:induction false} PausesAppend(s: seq<Event>, t: seq<Event>)
    ensures Pauses(s + t) == Pauses(s) + Pauses(t)
  {
    if s != [] {
      assert (s + t)[1..] == s[1..] + t;
      PausesAppend(s[1..], t);
    } else {
      assert s + t == t;
    }
  }
}
