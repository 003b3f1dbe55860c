// Whole runs under external I/O tracing: recording, replaying, fast-forwarding to a checkpoint and
// resuming from it (Lab1-Hazards/eio.c and the loading of EIO files in loader.c).
module EioSession {
  import opened FlatMemory
  import opened Eio
  import EioTraces

  /** A stretch of a run: the program computes, then makes a system call at instruction icnt. */
  datatype Stage = Stage(compute: Machine -> Machine, icnt: int, call: Syscall)

  predicate Traceable(stages: seq<Stage>)
  {
    forall i :: 0 <= i < |stages| ==> |stages[i].call.results| == 6 && ReadsThenWrites(stages[i].call.accesses)
  }

  /** The live run. */
  function Live(s: Machine, stages: seq<Stage>): Machine
    requires Traceable(stages)
  {
    if stages == [] then s
    else
      var last := stages[|stages| - 1];
      After(last.compute(Live(s, stages[..|stages| - 1])), last.call)
  }

  /** The trace that the live run leaves, one transaction for each stage. */
  function Trace(s: Machine, stages: seq<Stage>): (tr: seq<Transaction>)
    requires Traceable(stages)
    ensures |tr| == |stages|
  {
    if stages == [] then []
    else
      var before, last := stages[..|stages| - 1], stages[|stages| - 1];
      Trace(s, before) + [TransactionOf(last.icnt, last.compute(Live(s, before)), last.call)]
  }

  /** The same program run from a trace: every system call is replayed instead of performed. */
  function Replayed(s: Machine, stages: seq<Stage>, tr: seq<Transaction>): ReplayOutcome
    requires |tr| == |stages|
  {
    if stages == [] then Ok(s)
    else
      var k := |stages| - 1;
      match Replayed(s, stages[..k], tr[..k])
      case Fatal(why) => Fatal(why)
      case Ok(s') =>
        var s1 := stages[k].compute(s');
        if Accepts(tr[k], stages[k].icnt, s1) then Ok(Replay(tr[k], s1)) else Fatal(BadTransaction)
  }

  /** One more stage at the end of a run. */
  lemma {:induction false} LastStage(s: Machine, stages: seq<Stage>, last: Stage)
    requires Traceable(stages) && Traceable(stages + [last])
    ensures |last.call.results| == 6
    ensures Live(s, stages + [last]) == After(last.compute(Live(s, stages)), last.call)
    ensures Trace(s, stages + [last]) ==
            Trace(s, stages) + [TransactionOf(last.icnt, last.compute(Live(s, stages)), last.call)]
  {
    hide After, TransactionOf, ReadsThenWrites;
    var all := stages + [last];
    assert all[|stages|] == last && all[..|stages|] == stages;
  }

  lemma NoStage(s: Machine)
    ensures Live(s, []) == s && Trace(s, []) == []
  {
  }

  lemma {:induction false} TraceablePrefix(stages: seq<Stage>, k: nat)
    requires Traceable(stages) && k <= |stages|
    ensures Traceable(stages[..k]) && Traceable(stages[k..])
  {
  }

  /** Self-checking replay of a whole run never complains, and retraces the run state by state. */
  lemma {:induction false} ReplayedIsLive(s: Machine, stages: seq<Stage>)
    requires Traceable(stages)
    ensures Replayed(s, stages, Trace(s, stages)) == Ok(Live(s, stages))
  {
    hide After, TransactionOf, Accepts, Replay, ReadsThenWrites;
    if stages != [] {
      var k := |stages| - 1;
      var last := stages[k];
      ReplayedIsLive(s, stages[..k]);
      assert Trace(s, stages)[..k] == Trace(s, stages[..k]);
      ReplayReproduces(last.icnt, last.compute(Live(s, stages[..k])), last.call);
    }
  }

  /** Stage k of a replayed run is reached, and its transaction accepted. */
  ghost predicate Passes(s: Machine, stages: seq<Stage>, tr: seq<Transaction>, k: nat)
    requires |tr| == |stages| && k < |tr|
  {
    var r := Replayed(s, stages[..k], tr[..k]);
    r.Ok? && Accepts(tr[k], stages[k].icnt, stages[k].compute(r.state))
  }

  /** A replayed run goes through exactly if every transaction is accepted in turn. */
  lemma {:induction false} ReplaySucceeds(s: Machine, stages: seq<Stage>, tr: seq<Transaction>)
    requires |tr| == |stages|
    ensures Replayed(s, stages, tr).Ok? <==> forall k :: 0 <= k < |tr| ==> Passes(s, stages, tr, k)
  {
    hide Accepts, Replay;
    if stages != [] {
      var n := |stages| - 1;
      ReplaySucceeds(s, stages[..n], tr[..n]);
      forall k | 0 <= k < n
        ensures Passes(s, stages, tr, k) <==> Passes(s, stages[..n], tr[..n], k)
      {
        assert stages[..n][..k] == stages[..k] && tr[..n][..k] == tr[..k];
      }
      assert Passes(s, stages, tr, n) <==> Replayed(s, stages, tr).Ok?;
      if Replayed(s, stages, tr).Ok? {
        assert Replayed(s, stages[..n], tr[..n]).Ok?;
        forall k | 0 <= k < |tr|
          ensures Passes(s, stages, tr, k)
        {
          assert k < n ==> Passes(s, stages[..n], tr[..n], k);
        }
      }
    }
  }

  /** Self-checking: when a program, from any state, goes through the whole trace of a run, it makes its calls at the
      counts and at the PCs of that run, with the same values in r2 to r7, and finds the bytes that the run read. */
  lemma ReplayKeepsToTheRun(s: Machine, stages: seq<Stage>, x: Machine, stages': seq<Stage>, k: nat)
    requires Traceable(stages) && |stages'| == |stages| && k < |stages|
    requires Replayed(x, stages', Trace(s, stages)).Ok?
    ensures Replayed(x, stages'[..k], Trace(s, stages)[..k]).Ok?
    ensures var here := stages'[k].compute(Replayed(x, stages'[..k], Trace(s, stages)[..k]).state);
            var there, call := stages[k].compute(Live(s, stages[..k])), stages[k].call;
            && stages'[k].icnt == stages[k].icnt && here.pc == there.pc
            && (forall i :: 2 <= i <= 7 ==> here.regs[i] == there.regs[i])
            && forall j :: 0 <= j < |RawReads(there.mem, call.accesses)| ==>
                 Load(here.mem, RawReads(there.mem, call.accesses)[j].0) == RawReads(there.mem, call.accesses)[j].1
  {
    hide Accepts, Replayed, Live, ReadsThenWrites, RawReads, Load;
    ReplaySucceeds(x, stages', Trace(s, stages));
    assert Passes(x, stages', Trace(s, stages), k);
    TraceAt(s, stages, k);
    EioTraces.AcceptanceMeans(stages[k].icnt, stages[k].compute(Live(s, stages[..k])), stages[k].call, stages'[k].icnt,
                              stages'[k].compute(Replayed(x, stages'[..k], Trace(s, stages)[..k]).state));
  }

  lemma {:induction false} TraceAt(s: Machine, stages: seq<Stage>, k: nat)
    requires Traceable(stages) && k < |stages|
    ensures Trace(s, stages)[k]
            == TransactionOf(stages[k].icnt, stages[k].compute(Live(s, stages[..k])), stages[k].call)
  {
    hide TransactionOf, Live, ReadsThenWrites;
    var n := |stages| - 1;
    if k < n {
      TraceAt(s, stages[..n], k);
      assert stages[..n][..k] == stages[..k];
    }
  }

  // ---- Fast forward ------------------------------------------------------------------------

  datatype Forwarded = At(rest: seq<Transaction>) | NotFound

  /** Read transactions until one carries the wanted instruction count; at least one is read. */
  function FastForward(tr: seq<Transaction>, icnt: int): Forwarded
  {
    if tr == [] then NotFound
    else if tr[0].icnt == icnt then At(tr[1..])
    else FastForward(tr[1..], icnt)
  }

  /** The loop of eio_fast_forward: it reads before it looks, and fails at the end of the trace. */
  method Forward(tr: seq<Transaction>, icnt: int) returns (f: Forwarded)
    ensures f == FastForward(tr, icnt)
  {
    var rest, found := tr, false;
    while !found
      invariant if found then FastForward(tr, icnt) == At(rest) else FastForward(tr, icnt) == FastForward(rest, icnt)
      decreases |rest|, !found
    {
      if rest == [] {
        return NotFound;
      }
      found := rest[0].icnt == icnt;
      rest := rest[1..];
    }
    return At(rest);
  }

  /** It stops just after the first transaction with that count, and fails exactly when there is none. */
  lemma {:induction false} FastForwardStops(tr: seq<Transaction>, icnt: int, k: nat)
    requires k <= |tr| && forall i :: 0 <= i < k ==> tr[i].icnt != icnt
    requires k < |tr| ==> tr[k].icnt == icnt
    ensures FastForward(tr, icnt) == if k < |tr| then At(tr[k + 1..]) else NotFound
  {
    if k > 0 {
      FastForwardStops(tr[1..], icnt, k - 1);
      if k < |tr| {
        assert tr[1..][k..] == tr[k + 1..];
      }
    }
  }

  /** A checkpoint taken before the first system call carries the count -1, which no transaction has:
      fast-forwarding to it always fails. */
  lemma {:induction false} EarlyCheckpointCannotResume(s: Machine, stages: seq<Stage>)
    requires Traceable(stages) && forall i :: 0 <= i < |stages| ==> stages[i].icnt >= 0
    ensures FastForward(Trace(s, stages), -1) == NotFound
  {
    TraceCounts(s, stages);
    FastForwardStops(Trace(s, stages), -1, |stages|);
  }

  lemma {:induction false} TraceCounts(s: Machine, stages: seq<Stage>)
    requires Traceable(stages)
    ensures forall i :: 0 <= i < |stages| ==> Trace(s, stages)[i].icnt == stages[i].icnt
  {
    hide Live, After, ReadsThenWrites;
    if stages != [] {
      TraceCounts(s, stages[..|stages| - 1]);
    }
  }

  // ---- Resuming from a checkpoint ------------------------------------------------------------

  /** A run can be cut anywhere. */
  lemma {:induction false} RunSplits(s: Machine, stages: seq<Stage>, k: nat)
    requires Traceable(stages) && k <= |stages|
    ensures Traceable(stages[..k]) && Traceable(stages[k..])
    ensures Live(Live(s, stages[..k]), stages[k..]) == Live(s, stages)
    ensures Trace(Live(s, stages[..k]), stages[k..]) == Trace(s, stages)[k..]
  {
    hide After, TransactionOf, Traceable, Live, Trace;
    TraceablePrefix(stages, k);
    NoStage(Live(s, stages[..k]));
    if k == |stages| {
      assert stages[..k] == stages && stages[k..] == [];
    } else {
      var n := |stages| - 1;
      var init, last := stages[..n], stages[n];
      TraceablePrefix(stages, n);
      RunSplits(s, init, k);
      assert init[..k] == stages[..k];
      assert stages[k..] == init[k..] + [last];
      assert stages == init + [last];
      LastStage(s, init, last);
      LastStage(Live(s, init[..k]), init[k..], last);
    }
  }

  predicate DistinctCounts(stages: seq<Stage>)
  {
    forall i, j :: 0 <= i < j < |stages| ==> stages[i].icnt != stages[j].icnt
  }

  /** The stages from k on when the run resumes in the middle of the computation of stage k. */
  function Resumed(stages: seq<Stage>, k: nat, rest: Machine -> Machine): (r: seq<Stage>)
    requires k < |stages|
    ensures |r| == |stages| - k
  {
    [stages[k].(compute := rest)] + stages[k + 1..]
  }

  lemma {:induction false} ResumedRun(s: Machine, x: Machine, stages: seq<Stage>, rest: Machine -> Machine)
    requires Traceable(stages) && stages != []
    requires rest(x) == stages[0].compute(s)
    ensures Traceable(Resumed(stages, 0, rest))
    ensures Live(x, Resumed(stages, 0, rest)) == Live(s, stages)
    ensures Trace(x, Resumed(stages, 0, rest)) == Trace(s, stages)
  {
    hide After, TransactionOf, Traceable, Live, Trace;
    ResumedTraceable(stages, rest);
    var n := |stages| - 1;
    var init, last, r := stages[..n], stages[n], Resumed(stages, 0, rest);
    TraceablePrefix(stages, n);
    TraceablePrefix(r, n);
    assert stages == init + [last];
    LastStage(s, init, last);
    if n == 0 {
      NoStage(s);
      NoStage(x);
      assert init == [] && r == [] + [last.(compute := rest)];
      LastStage(x, [], last.(compute := rest));
    } else {
      ResumedRun(s, x, init, rest);
      assert r == Resumed(init, 0, rest) + [last];
      assert r[..n] == Resumed(init, 0, rest);
      LastStage(x, Resumed(init, 0, rest), last);
    }
  }

  lemma {:induction false} ResumedTraceable(stages: seq<Stage>, rest: Machine -> Machine)
    requires Traceable(stages) && stages != []
    ensures Traceable(Resumed(stages, 0, rest))
  {
    hide ReadsThenWrites;
    var r := Resumed(stages, 0, rest);
    assert forall i :: 0 < i < |r| ==> r[i] == stages[i];
  }

  /** Restore a checkpoint x that was taken after k > 0 system calls, anywhere in the computation that
      follows them; fast-forward the trace to the k-th transaction; replay what is left. The run ends
      in the state in which the recorded run ended. */
  lemma {:induction false} ResumeFromCheckpoint(s: Machine, stages: seq<Stage>, k: nat, x: Machine,
                                                rest: Machine -> Machine)
    requires Traceable(stages) && DistinctCounts(stages)
    requires 0 < k < |stages|
    requires Traceable(stages[..k]) && rest(x) == stages[k].compute(Live(s, stages[..k]))
    ensures FastForward(Trace(s, stages), stages[k - 1].icnt) == At(Trace(s, stages)[k..])
    ensures Replayed(x, Resumed(stages, k, rest), Trace(s, stages)[k..]) == Ok(Live(s, stages))
  {
    hide Live, Trace, Traceable, FastForward, Replayed;
    TraceCounts(s, stages);
    FastForwardStops(Trace(s, stages), stages[k - 1].icnt, k - 1);
    RunSplits(s, stages, k);
    var tail := stages[k..];
    ResumedRun(Live(s, stages[..k]), x, tail, rest);
    assert Resumed(tail, 0, rest) == Resumed(stages, k, rest);
    ReplayedIsLive(x, Resumed(stages, k, rest));
  }
}
