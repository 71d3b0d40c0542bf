/** Client-side batching shared by the two command-line clients
    (cli/interactive_cli.py, _translate_in_batches; cli/translation_cli.py,
    translate_file): the slices sentences[i:i+B] for i = 0, B, 2B, ...,
    and the order of requests and one-second pauses between them. */
module Batching {
  import opened Common

  /** The slices Python's `for i in range(0, len(s), B): s[i:i+B]` visits. */
  function Slices<T>(s: seq<T>, b: nat): (r: seq<seq<T>>)
    requires b > 0
    ensures forall k :: 0 <= k < |r| ==> 1 <= |r[k]| <= b
    decreases |s|
  {
    if s == [] then []
    else if |s| <= b then [s]
    else [s[..b]] + Slices(s[b..], b)
  }

  /** The slices the same loop visits once it has reached position i. */
  function SlicesFrom<T>(s: seq<T>, b: nat, i: nat): seq<seq<T>>
    requires b > 0 && i <= |s|
    decreases |s| - i
  {
    if i == |s| then []
    else
      var stop := if i + b < |s| then i + b else |s|;
      [s[i..stop]] + SlicesFrom(s, b, stop)
  }

  lemma {:induction false} SlicesFromTail<T>(s: seq<T>, b: nat, i: nat)
    requires b > 0 && i <= |s|
    ensures SlicesFrom(s, b, i) == Slices(s[i..], b)
    decreases |s| - i
  {
    if i < |s| && i + b < |s| {
      SlicesFromTail(s, b, i + b);
      assert s[i..][b..] == s[i + b..];
      assert s[i..][..b] == s[i..i + b];
    } else if i < |s| {
      assert s[i..|s|] == s[i..];
      assert SlicesFrom(s, b, |s|) == [];
    }
  }

  function Flatten<T>(ss: seq<seq<T>>): seq<T> {
    if ss == [] then [] else ss[0] + Flatten(ss[1..])
  }

  /** ceil(N / B) slices, the batch count both clients print as
      (N + B - 1) // B: enough slices of B to hold N, and one fewer would not. */
  lemma {:induction false} SlicesCount<T>(s: seq<T>, b: nat)
    requires b > 0
    ensures |Slices(s, b)| * b >= |s|
    ensures |Slices(s, b)| > 0 ==> (|Slices(s, b)| - 1) * b < |s|
    ensures |Slices(s, b)| == 0 <==> s == []
    decreases |s|
  {
    if s != [] && |s| > b {
      SlicesCount(s[b..], b);
      var k := |Slices(s[b..], b)|;
      assert |Slices(s, b)| == k + 1;
      assert (k + 1) * b == k * b + b;
      assert k * b == (k - 1) * b + b;
    }
  }

  /** The slices put back together are the input: every sentence is sent
      once, in order. */
  lemma {:induction false} SlicesFlatten<T>(s: seq<T>, b: nat)
    requires b > 0
    ensures Flatten(Slices(s, b)) == s
    decreases |s|
  {
    if s != [] && |s| > b {
      SlicesFlatten(s[b..], b);
      var r := Slices(s, b);
      assert r[1..] == Slices(s[b..], b);
      assert s == s[..b] + s[b..];
    } else if s != [] {
      assert Slices(s, b)[1..] == [];
    }
  }

  /** Every slice but the last is full. */
  lemma {:induction false} SlicesFull<T>(s: seq<T>, b: nat)
    requires b > 0
    ensures forall k :: 0 <= k < |Slices(s, b)| - 1 ==> |Slices(s, b)[k]| == b
    decreases |s|
  {
    if s != [] && |s| > b {
      SlicesFull(s[b..], b);
      var r := Slices(s, b);
      forall k | 1 <= k < |r| - 1 ensures |r[k]| == b {
        assert r[k] == Slices(s[b..], b)[k - 1];
      }
    }
  }

  /** One thing a batching client does: send a batch, or pause a second. */
  datatype Step<T> = Send(batch: seq<T>) | Pause

  /** The requests in order with a pause between consecutive ones and none
      after the last. */
  function Schedule<T>(batches: seq<seq<T>>): (r: seq<Step<T>>)
    ensures batches == [] ==> r == []
    ensures batches != [] ==> |r| == 2 * |batches| - 1
  {
    if batches == [] then []
    else if |batches| == 1 then [Send(batches[0])]
    else
      var init := batches[..|batches| - 1];
      Schedule(init) + [Pause, Send(batches[|batches| - 1])]
  }

  /** Request k is step 2k and the step after it, if any, is a pause. */
  lemma {:induction false} ScheduleShape<T>(batches: seq<seq<T>>)
    ensures forall k :: 0 <= k < |batches| ==> Schedule(batches)[2 * k] == Send(batches[k])
    ensures forall k :: 0 <= k < |batches| - 1 ==> Schedule(batches)[2 * k + 1] == Pause
  {
    if |batches| > 1 {
      var init := batches[..|batches| - 1];
      ScheduleShape(init);
      var r := Schedule(batches);
      assert r == Schedule(init) + [Pause, Send(batches[|batches| - 1])];
      forall k | 0 <= k < |batches| ensures r[2 * k] == Send(batches[k]) {
        if k < |init| {
          assert r[2 * k] == Schedule(init)[2 * k];
        }
      }
      forall k | 0 <= k < |batches| - 1 ensures r[2 * k + 1] == Pause {
        if k < |init| - 1 {
          assert r[2 * k + 1] == Schedule(init)[2 * k + 1];
        }
      }
    }
  }

  lemma ScheduleSnoc<T>(done: seq<seq<T>>, batch: seq<T>)
    ensures done == [] ==> Schedule(done + [batch]) == [Send(batch)]
    ensures done != [] ==> Schedule(done + [batch]) == Schedule(done) + [Pause, Send(batch)]
  {
    if done != [] {
      assert (done + [batch])[..|done|] == done;
    } else {
      assert done + [batch] == [batch];
    }
  }

  /** Pauses come only between requests: the schedule's last step is a
      request, and there is one pause fewer than there are batches. */
  lemma {:induction false} PausesBetweenOnly<T>(batches: seq<seq<T>>)
    requires batches != []
    ensures Schedule(batches)[|Schedule(batches)| - 1].Send?
    ensures PauseCount(Schedule(batches)) == |batches| - 1
  {
    if |batches| > 1 {
      var init := batches[..|batches| - 1];
      PausesBetweenOnly(init);
      PauseCountAppend(Schedule(init), [Pause, Send(batches[|batches| - 1])]);
    }
  }

  function PauseCount<T>(steps: seq<Step<T>>): (n: nat)
    ensures n <= |steps|
  {
    if steps == [] then 0 else PauseCount(steps[..|steps| - 1]) + (if steps[|steps| - 1].Pause? then 1 else 0)
  }

  lemma {:induction false} PauseCountAppend<T>(a: seq<Step<T>>, b: seq<Step<T>>)
    ensures PauseCount(a + b) == PauseCount(a) + PauseCount(b)
    decreases |b|
  {
    if b != [] {
      PauseCountAppend(a, b[..|b| - 1]);
      assert (a + b)[..|a + b| - 1] == a + b[..|b| - 1];
    } else {
      assert a + b == a;
    }
  }

  /** How a run of batch requests ends: every batch answered (the replies in
      order), or stopped by the request for batch `at`, which ended the
      program. */
  datatype SendOutcome<R> = Answered(replies: seq<R>) | Stopped(at: nat)

  /** The reference run: the batches sent in order until one gets no reply. */
  function SendAll<T, R>(batches: seq<seq<T>>, send: seq<T> -> Option<R>): (r: SendOutcome<R>)
  {
    if batches == [] then Answered([])
    else
      match SendAll(batches[..|batches| - 1], send)
      case Stopped(at) => Stopped(at)
      case Answered(replies) =>
        var reply := send(batches[|batches| - 1]);
        if reply.None? then Stopped(|replies|) else Answered(replies + [reply.value])
  }

  /** What a run means: when answered, one reply per batch and each the
      reply to that batch; when stopped, the earlier batches were answered
      and the stopping one was not. */
  lemma {:induction false} SendAllMeaning<T, R>(batches: seq<seq<T>>, send: seq<T> -> Option<R>)
    ensures SendAll(batches, send).Answered? ==>
      var rs := SendAll(batches, send).replies;
      |rs| == |batches| && forall k :: 0 <= k < |batches| ==> send(batches[k]) == Some(rs[k])
    ensures SendAll(batches, send).Stopped? ==>
      var at := SendAll(batches, send).at;
      at < |batches| && send(batches[at]).None? && forall k :: 0 <= k < at ==> send(batches[k]).Some?
    ensures SendAll(batches, send).Answered? <==> forall k :: 0 <= k < |batches| ==> send(batches[k]).Some?
  {
    if batches != [] {
      var init := batches[..|batches| - 1];
      SendAllMeaning(init, send);
      assert forall k :: 0 <= k < |init| ==> init[k] == batches[k];
    }
  }

  /** Once a run has stopped, later batches are never sent. */
  lemma {:induction false} SendAllStopsForGood<T, R>(done: seq<seq<T>>, rest: seq<seq<T>>, send: seq<T> -> Option<R>)
    requires SendAll(done, send).Stopped?
    ensures SendAll(done + rest, send) == SendAll(done, send)
    decreases |rest|
  {
    if rest == [] {
      assert done + rest == done;
    } else {
      var init := rest[..|rest| - 1];
      SendAllStopsForGood(done, init, send);
      assert (done + rest)[..|done + rest| - 1] == done + init;
    }
  }

  /** One more batch sent after the ones already answered. */
  lemma SendAllSnoc<T, R>(done: seq<seq<T>>, batch: seq<T>, send: seq<T> -> Option<R>)
    ensures SendAll(done + [batch], send) ==
      match SendAll(done, send)
      case Stopped(at) => Stopped(at)
      case Answered(replies) =>
        if send(batch).None? then Stopped(|replies|) else Answered(replies + [send(batch).value])
  {
    assert (done + [batch])[..|done|] == done;
  }

  /** The trace of a sending loop gains the next request. */
  lemma TraceTurn<T>(done: seq<seq<T>>, batch: seq<T>, trace: seq<Step<T>>)
    requires trace == if done != [] then Schedule(done) + [Pause] else []
    ensures trace + [Send(batch)] == Schedule(done + [batch])
  {
    ScheduleSnoc(done, batch);
    if done != [] {
      assert trace + [Send(batch)] == Schedule(done) + [Pause, Send(batch)];
    }
  }

  /** A run that reaches the next batch either stops there for good or
      carries one more reply. */
  lemma SendTurn<T, R>(done: seq<seq<T>>, batch: seq<T>, rest: seq<seq<T>>, results: seq<R>, send: seq<T> -> Option<R>)
    requires SendAll(done, send) == Answered(results)
    ensures send(batch).None? ==> SendAll((done + [batch]) + rest, send) == Stopped(|results|)
    ensures send(batch).Some? ==> SendAll(done + [batch], send) == Answered(results + [send(batch).value])
  {
    SendAllSnoc(done, batch, send);
    if send(batch).None? {
      SendAllStopsForGood(done + [batch], rest, send);
    }
  }

  /** Where a sending loop that has reached position i of s ends up: the
      outcome and the full trace, one request per remaining slice, in order,
      with a pause after each but the last, ending at the first request that
      gets no reply. */
  function RunFrom<T, R>(s: seq<T>, b: nat, i: nat, send: seq<T> -> Option<R>,
                         results: seq<R>, trace: seq<Step<T>>): (SendOutcome<R>, seq<Step<T>>)
    requires b > 0 && i <= |s|
    decreases |s| - i
  {
    if i == |s| then (Answered(results), trace)
    else
      var stop := if i + b < |s| then i + b else |s|;
      var batch := s[i..stop];
      var reply := send(batch);
      if reply.None? then (Stopped(|results|), trace + [Send(batch)])
      else RunFrom(s, b, stop, send, results + [reply.value],
                   if stop < |s| then trace + [Send(batch)] + [Pause] else trace + [Send(batch)])
  }

  /** The same run over a list of batches still to send. */
  function RunOver<T, R>(rest: seq<seq<T>>, send: seq<T> -> Option<R>,
                         results: seq<R>, trace: seq<Step<T>>): (SendOutcome<R>, seq<Step<T>>)
    decreases |rest|
  {
    if rest == [] then (Answered(results), trace)
    else
      var reply := send(rest[0]);
      if reply.None? then (Stopped(|results|), trace + [Send(rest[0])])
      else RunOver(rest[1..], send, results + [reply.value],
                   if |rest| > 1 then trace + [Send(rest[0])] + [Pause] else trace + [Send(rest[0])])
  }

  /** Walking s from position i is walking the slices left from there. */
  lemma {:induction false} RunFromSlices<T, R>(s: seq<T>, b: nat, i: nat, send: seq<T> -> Option<R>,
                                               results: seq<R>, trace: seq<Step<T>>)
    requires b > 0 && i <= |s|
    ensures RunFrom(s, b, i, send, results, trace) == RunOver(SlicesFrom(s, b, i), send, results, trace)
    decreases |s| - i
  {
    if i < |s| {
      var stop := if i + b < |s| then i + b else |s|;
      var batch := s[i..stop];
      var rest := SlicesFrom(s, b, i);
      assert rest == [batch] + SlicesFrom(s, b, stop);
      assert rest[1..] == SlicesFrom(s, b, stop);
      assert |rest| > 1 <==> stop < |s|;
      if send(batch).Some? {
        RunFromSlices(s, b, stop, send, results + [send(batch).value],
                      if stop < |s| then trace + [Send(batch)] + [Pause] else trace + [Send(batch)]);
      }
    }
  }

  /** What a run over the batches `all` must come to: the reference
      outcome, and the schedule of every batch it sent. */
  ghost predicate RunMatches<T, R>(out: (SendOutcome<R>, seq<Step<T>>), all: seq<seq<T>>, send: seq<T> -> Option<R>) {
    && out.0 == SendAll(all, send)
    && (out.0.Answered? ==> out.1 == Schedule(all))
    && (out.0.Stopped? ==> out.0.at < |all| && out.1 == Schedule(all[..out.0.at + 1]))
  }

  /** A run that has sent `done`, all answered, sends the rest of `all`
      in order and stops at the first batch without a reply. */
  lemma {:induction false} RunOverMeaning<T, R>(all: seq<seq<T>>, done: seq<seq<T>>, rest: seq<seq<T>>,
                                                send: seq<T> -> Option<R>, results: seq<R>, trace: seq<Step<T>>)
    requires done + rest == all
    requires SendAll(done, send) == Answered(results) && |results| == |done|
    requires trace == if done == [] then [] else if rest == [] then Schedule(done) else Schedule(done) + [Pause]
    ensures RunMatches(RunOver(rest, send, results, trace), all, send)
    decreases |rest|
  {
    if rest == [] {
      assert done == all;
    } else {
      var batch := rest[0];
      assert all == (done + [batch]) + rest[1..];
      SendTurn(done, batch, rest[1..], results, send);
      TraceTurn(done, batch, trace);
      if send(batch).None? {
        assert all[..|results| + 1] == done + [batch];
      } else {
        RunOverMeaning(all, done + [batch], rest[1..], send, results + [send(batch).value],
                       if |rest| > 1 then trace + [Send(batch)] + [Pause] else trace + [Send(batch)]);
      }
    }
  }

  /** The run of a sending loop started at the beginning of s is the
      reference run over the slices of s. */
  lemma RunMeaning<T, R>(s: seq<T>, b: nat, send: seq<T> -> Option<R>)
    requires b > 0
    ensures RunMatches(RunFrom(s, b, 0, send, [], []), Slices(s, b), send)
  {
    SlicesFromTail(s, b, 0);
    assert s[0..] == s;
    RunFromSlices(s, b, 0, send, [], []);
    RunOverMeaning(Slices(s, b), [], Slices(s, b), send, [], []);
  }

  /** translate_file's batch loop (cli/translation_cli.py): one request
      per slice, in order, a pause after each but the last, stopping at the
      first request that ends the program. */
  method SendBatches<T, R>(s: seq<T>, b: int, send: seq<T> -> Option<R>)
    returns (run: SendOutcome<R>, trace: seq<Step<T>>)
    requires 0 < b < |s|
    ensures run == SendAll(Slices(s, b), send)
    ensures run.Answered? ==> trace == Schedule(Slices(s, b))
    ensures run.Stopped? ==> run.at < |Slices(s, b)| && trace == Schedule(Slices(s, b)[..run.at + 1])
  {
    var results: seq<R> := [];
    trace := [];
    var n := |s|;
    var i := 0;
    while i < n
      invariant 0 <= i <= n
      invariant RunFrom(s, b, i, send, results, trace) == RunFrom(s, b, 0, send, [], [])
      decreases n - i
    {
      var stop := if i + b < n then i + b else n;
      var batch := s[i..stop];
      var reply := send(batch);
      if reply.None? {
        RunMeaning(s, b, send);
        return Stopped(|results|), trace + [Send(batch)];
      }
      // the pause between batches, none after the last
      trace := if stop < n then trace + [Send(batch)] + [Pause] else trace + [Send(batch)];
      results, i := results + [reply.value], stop;
    }
    RunMeaning(s, b, send);
    run := Answered(results);
  }

  /** x repeated c times, end to end. */
  function Repeat<T>(x: seq<T>, c: nat): seq<T> {
    if c == 0 then [] else Repeat(x, c - 1) + x
  }

  /** x repeated c times is c times as long. */
  lemma {:induction false} RepeatLength<T>(x: seq<T>, c: nat)
    ensures |Repeat(x, c)| == c * |x|
  {
    if c > 0 {
      RepeatLength(x, c - 1);
    }
  }
}
