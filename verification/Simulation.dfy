// The main loop of Lab2-Branch-Predictor/main.cc: every conditional branch of a trace is predicted
// by the three predictors and then shown to them, and their mispredictions are counted.
module Simulation {
  import opened Branches
  import Bimodal
  import PAp
  import Tage
  import TageMachine

  /** A trace record: only conditional branches reach the predictors. */
  datatype Record = Record(conditional: bool, branch: Branch)

  function Conditionals(rs: seq<Record>): Trace
  {
    if rs == [] then []
    else
      var before, last := Conditionals(rs[..|rs| - 1]), rs[|rs| - 1];
      if last.conditional then before + [last.branch] else before
  }

  /** One round for each predictor: predict, update, and count a misprediction. */
  method BimodalRound(p: Bimodal.Predictor, b: Branch, ghost tr: Trace) returns (miss: nat)
    requires p.Reflects(tr)
    modifies p.bitsat
    ensures p.Reflects(tr + [b])
    ensures Bimodal.Misses(tr + [b]) == Bimodal.Misses(tr) + miss
  {
    var dir := p.GetPrediction(b.pc, tr);
    p.UpdatePredictor(b.pc, b.taken, tr);
    miss := if dir != b.taken then 1 else 0;
    SplitLast(tr, b);
    hide Bimodal.Predicted, Bimodal.Predictor.Reflects;
  }

  method PApRound(p: PAp.Predictor, b: Branch, ghost tr: Trace) returns (miss: nat)
    requires p.Reflects(tr)
    modifies p.papbht, p.pappht
    ensures p.Reflects(tr + [b])
    ensures PAp.Misses(tr + [b]) == PAp.Misses(tr) + miss
  {
    var dir := p.GetPrediction(b.pc, tr);
    p.UpdatePredictor(b.pc, b.taken, tr);
    miss := if dir != b.taken then 1 else 0;
    SplitLast(tr, b);
    hide PAp.Predicted, PAp.Predictor.Reflects;
  }

  method TageRound(p: TageMachine.Predictor, b: Branch, ghost tr: Trace) returns (miss: nat)
    requires p.Reflects(tr)
    modifies p.T0Phrt, p.T0Pht, p.GHR, p.T, p.CSR, p
    ensures p.Reflects(tr + [b])
    ensures Tage.Misses(tr + [b]) == Tage.Misses(tr) + miss
  {
    hide Tage.Predicted, Tage.ProviderOf, Tage.Updated, TageMachine.Predictor.Valid, TageMachine.Predictor.Abs;
    var dir := p.GetPrediction(b.pc);
    p.UpdatePredictor(b.pc, b.taken, Tage.ProviderOf(Tage.After(tr), b.pc));
    miss := if dir != b.taken then 1 else 0;
    SplitLast(tr, b);
  }

  method Simulate(records: seq<Record>) returns (bimodal: nat, pap: nat, tage: nat)
    ensures bimodal == Bimodal.Misses(Conditionals(records))
    ensures pap == PAp.Misses(Conditionals(records))
    ensures tage == Tage.Misses(Conditionals(records))
  {
    hide *;
    bimodal, pap, tage := 0, 0, 0;
    EmptyTrace();
    var p0 := new Bimodal.Predictor();
    var p1 := new PAp.Predictor();
    var p2 := new TageMachine.Predictor();
    ghost var tr: Trace := [];
    var i := 0;
    while i < |records|
      invariant 0 <= i <= |records|
      invariant tr == Conditionals(records[..i])
      invariant p0.Reflects(tr) && p1.Reflects(tr) && p2.Reflects(tr)
      invariant bimodal == Bimodal.Misses(tr) && pap == PAp.Misses(tr) && tage == Tage.Misses(tr)
    {
      var r := records[i];
      NextRecord(records, i);
      if r.conditional {
        var miss0 := BimodalRound(p0, r.branch, tr);
        var miss1 := PApRound(p1, r.branch, tr);
        var miss2 := TageRound(p2, r.branch, tr);
        bimodal, pap, tage := bimodal + miss0, pap + miss1, tage + miss2;
        tr := tr + [r.branch];
      }
      i := i + 1;
    }
    assert records[..i] == records;
  }

  lemma EmptyTrace()
    ensures Conditionals([]) == []
    ensures Bimodal.Misses([]) == 0 && PAp.Misses([]) == 0 && Tage.Misses([]) == 0
  {
  }

  lemma NextRecord(rs: seq<Record>, i: nat)
    requires i < |rs|
    ensures Conditionals(rs[..i + 1]) ==
            if rs[i].conditional then Conditionals(rs[..i]) + [rs[i].branch] else Conditionals(rs[..i])
  {
    assert rs[..i + 1][..i] == rs[..i];
  }

  // ---- What is counted ---------------------------------------------------------------------------

  /** The branches of a trace that a predictor gets wrong, given what it answers after each trace. */
  function Wrong(predict: (Trace, Pc) -> bool, tr: Trace): set<int>
  {
    set i | 0 <= i < |tr| && predict(tr[..i], tr[i].pc) != tr[i].taken
  }

  lemma {:induction false} WrongBefore(predict: (Trace, Pc) -> bool, tr: Trace, b: Branch)
    ensures forall i :: 0 <= i < |tr| ==> (i in Wrong(predict, tr + [b]) <==> i in Wrong(predict, tr))
  {
    var all := tr + [b];
    forall i | 0 <= i < |tr|
      ensures i in Wrong(predict, all) <==> i in Wrong(predict, tr)
    {
      assert all[..i] == tr[..i] && all[i] == tr[i];
    }
  }

  lemma {:induction false} WrongStep(predict: (Trace, Pc) -> bool, tr: Trace, b: Branch)
    ensures |Wrong(predict, tr + [b])| == |Wrong(predict, tr)| + if predict(tr, b.pc) != b.taken then 1 else 0
  {
    WrongBefore(predict, tr, b);
    var all := tr + [b];
    assert all[..|tr|] == tr;
    if predict(tr, b.pc) != b.taken {
      assert Wrong(predict, all) == Wrong(predict, tr) + {|tr|};
    } else {
      assert Wrong(predict, all) == Wrong(predict, tr);
    }
  }

  lemma {:induction false} NoneWrong(predict: (Trace, Pc) -> bool)
    ensures |Wrong(predict, [])| == 0
  {
    assert Wrong(predict, []) == {};
  }

  /** The counts are the numbers of branches that each predictor, having seen what came before, gets wrong. */
  lemma {:induction false} MissesAreWrong(tr: Trace)
    ensures Bimodal.Misses(tr) == |Wrong((t: Trace, pc: Pc) => Bimodal.Predicted(t, pc), tr)|
    ensures PAp.Misses(tr) == |Wrong((t: Trace, pc: Pc) => PAp.Predicted(t, pc), tr)|
    ensures Tage.Misses(tr) == |Wrong((t: Trace, pc: Pc) => Tage.Predicted(Tage.After(t), pc), tr)|
  {
    hide Wrong, Bimodal.Predicted, PAp.Predicted, Tage.Predicted, Tage.After;
    var bimodal := (t: Trace, pc: Pc) => Bimodal.Predicted(t, pc);
    var pap := (t: Trace, pc: Pc) => PAp.Predicted(t, pc);
    var tage := (t: Trace, pc: Pc) => Tage.Predicted(Tage.After(t), pc);
    if tr == [] {
      NoneWrong(bimodal);
      NoneWrong(pap);
      NoneWrong(tage);
    } else {
      var before, last := tr[..|tr| - 1], tr[|tr| - 1];
      MissesAreWrong(before);
      assert before + [last] == tr;
      WrongStep(bimodal, before, last);
      WrongStep(pap, before, last);
      WrongStep(tage, before, last);
    }
  }

  /** The conditional records among the first n. */
  function Chosen(rs: seq<Record>, n: nat): set<int>
    requires n <= |rs|
  {
    set i | 0 <= i < n && rs[i].conditional
  }

  lemma ChosenStep(rs: seq<Record>, n: nat)
    requires n < |rs|
    ensures |Chosen(rs, n + 1)| == |Chosen(rs, n)| + if rs[n].conditional then 1 else 0
  {
    if rs[n].conditional {
      assert Chosen(rs, n + 1) == Chosen(rs, n) + {n};
    } else {
      assert Chosen(rs, n + 1) == Chosen(rs, n);
    }
  }

  lemma {:induction false} ChosenPrefix(rs: seq<Record>, m: nat, n: nat)
    requires n <= m <= |rs|
    ensures Chosen(rs[..m], n) == Chosen(rs, n)
  {
  }

  /** The trace that the predictors see holds the conditional records and no others, each in its place. */
  lemma {:induction false} ConditionalsInOrder(rs: seq<Record>)
    ensures |Conditionals(rs)| == |Chosen(rs, |rs|)|
    ensures forall k :: 0 <= k < |rs| && rs[k].conditional ==>
              |Chosen(rs, k)| < |Conditionals(rs)| && Conditionals(rs)[|Chosen(rs, k)|] == rs[k].branch
  {
    hide Chosen;
    if rs == [] {
      NoneChosen();
    } else {
      var n := |rs| - 1;
      var before := rs[..n];
      ConditionalsInOrder(before);
      ChosenStep(rs, n);
      ChosenPrefix(rs, n, n);
      forall k | 0 <= k < n && rs[k].conditional
        ensures |Chosen(rs, k)| < |Conditionals(before)| && Conditionals(before)[|Chosen(rs, k)|] == rs[k].branch
      {
        ChosenPrefix(rs, n, k);
        assert before[k] == rs[k];
      }
    }
  }

  lemma NoneChosen()
    ensures |Chosen([], 0)| == 0
  {
    assert Chosen([], 0) == {};
  }
}
