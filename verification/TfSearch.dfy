/**
  * The search in `tf_analysis`: which bands get the changed time-frequency resolution. The per-band metric,
  * which the source computes from the spectrum in floating point, is arbitrary here.
  */
module TfSearch {
  import opened CeltMath
  import opened TfTables

  datatype Problem = Problem(metric: seq<int>, lambda: int, LM: shift, isTransient: bool)

  // ----- what a choice costs

  function Initial(pr: Problem, res: bit): int {
    if res == 1 && !pr.isTransient then pr.lambda else 0
  }

  function Switch(pr: Problem, a: bit, b: bit): int {
    if a == b then 0 else pr.lambda
  }

  function Distance(pr: Problem, sel: bit, band: nat, res: bit): int
    requires band < |pr.metric|
  {
    Abs(pr.metric[band] - 2 * Resolution(pr.LM, pr.isTransient, sel, res))
  }

  /** The cost of the bands after `band`, when `tail` lists the choices from `band` to the last one. */
  function TailCost(pr: Problem, sel: bit, tail: seq<bit>, band: nat): int
    requires tail != [] && band + |tail| == |pr.metric|
    decreases |tail|
  {
    if |tail| == 1 then 0
    else Switch(pr, tail[0], tail[1]) + Distance(pr, sel, band + 1, tail[1]) + TailCost(pr, sel, tail[1..], band + 1)
  }

  /** The cost of one choice per band: the metric of the first band does not count. */
  function Cost(pr: Problem, sel: bit, path: seq<bit>): int
    requires path != [] && |path| == |pr.metric|
  {
    Initial(pr, path[0]) + TailCost(pr, sel, path, 0)
  }

  ghost predicate Cheapest(pr: Problem, sel: bit, cost: int)
    requires pr.metric != []
  {
    forall path: seq<bit> | |path| == |pr.metric| :: cost <= Cost(pr, sel, path)
  }

  /** How often the choice changes from one band to the next. */
  function Changes(path: seq<bit>): nat {
    if |path| <= 1 then 0 else Changes(path[1..]) + if path[0] == path[1] then 0 else 1
  }

  /** How far the choices from `band` on are from what twice their resolution would be. */
  function Misfit(pr: Problem, sel: bit, path: seq<bit>, band: nat): (r: nat)
    requires |path| == |pr.metric| && band <= |path|
    decreases |path| - band
  {
    if band == |path| then 0
    else
      var d := pr.metric[band] - 2 * Resolution(pr.LM, pr.isTransient, sel, path[band]);
      (if d < 0 then -d else d) + Misfit(pr, sel, path, band + 1)
  }

  lemma {:induction false} TailIsSum(pr: Problem, sel: bit, path: seq<bit>, band: nat)
    requires band < |path| == |pr.metric|
    ensures TailCost(pr, sel, path[band..], band)
         == pr.lambda * Changes(path[band..]) + Misfit(pr, sel, path, band + 1)
    decreases |path| - band
  {
    hide Resolution;
    var tail := path[band..];
    if |tail| > 1 {
      assert tail[1..] == path[band + 1..];
      TailIsSum(pr, sel, path, band + 1);
      var c, e := Changes(tail[1..]), if tail[0] == tail[1] then 0 else 1;
      assert pr.lambda * (c + e) == pr.lambda * c + pr.lambda * e;
    }
  }

  /**
    * What is minimised: `lambda` for every change, the first one from no change unless the frame is a transient, and
    * the misfit of all bands but the first.
    */
  lemma CostIsSum(pr: Problem, sel: bit, path: seq<bit>)
    requires path != [] && |path| == |pr.metric|
    ensures Cost(pr, sel, path)
         == pr.lambda * (Changes(path) + if path[0] == 1 && !pr.isTransient then 1 else 0) + Misfit(pr, sel, path, 1)
  {
    hide Misfit, Changes, TailCost;
    assert path[0..] == path;
    TailIsSum(pr, sel, path, 0);
    var c, e := Changes(path), if path[0] == 1 && !pr.isTransient then 1 else 0;
    assert pr.lambda * (c + e) == pr.lambda * c + pr.lambda * e;
  }

  // ----- dynamic programming

  /** The cheapest way to reach `band` with choice `res`. */
  function Best(pr: Problem, sel: bit, band: nat, res: bit): int
    requires band < |pr.metric|
    decreases band
  {
    if band == 0 then Initial(pr, res)
    else Min(Best(pr, sel, band - 1, res), Best(pr, sel, band - 1, 1 - res) + pr.lambda) + Distance(pr, sel, band, res)
  }

  function BestOverall(pr: Problem, sel: bit): int
    requires pr.metric != []
  {
    Min(Best(pr, sel, |pr.metric| - 1, 0), Best(pr, sel, |pr.metric| - 1, 1))
  }

  lemma {:induction false} TailIsNoCheaper(pr: Problem, sel: bit, tail: seq<bit>, band: nat)
    requires tail != [] && band + |tail| == |pr.metric|
    ensures BestOverall(pr, sel) <= Best(pr, sel, band, tail[0]) + TailCost(pr, sel, tail, band)
    decreases |tail|
  {
    hide Distance;
    if |tail| > 1 {
      TailIsNoCheaper(pr, sel, tail[1..], band + 1);
    }
  }

  lemma NoPathIsCheaper(pr: Problem, sel: bit)
    requires pr.metric != []
    ensures Cheapest(pr, sel, BestOverall(pr, sel))
  {
    forall path: seq<bit> | |path| == |pr.metric| ensures BestOverall(pr, sel) <= Cost(pr, sel, path) {
      TailIsNoCheaper(pr, sel, path, 0);
    }
  }

  lemma BestAtStart(pr: Problem, sel: bit, res: bit)
    requires pr.metric != []
    ensures Best(pr, sel, 0, res) == Initial(pr, res)
  {
  }

  // ----- the code

  /** The cost-only pass, run for both values of `sel`. */
  method SelectCost(pr: Problem, sel: bit) returns (selcost: int)
    requires pr.metric != []
    ensures selcost == BestOverall(pr, sel)
  {
    hide Distance;
    var cost0, cost1 := 0, if pr.isTransient then 0 else pr.lambda;
    for i := 1 to |pr.metric|
      invariant cost0 == Best(pr, sel, i - 1, 0) && cost1 == Best(pr, sel, i - 1, 1)
    {
      var curr0 := Min(cost0, cost1 + pr.lambda);
      var curr1 := Min(cost0 + pr.lambda, cost1);
      cost0 := curr0 + Distance(pr, sel, i, 0);
      cost1 := curr1 + Distance(pr, sel, i, 1);
    }
    return Min(cost0, cost1);
  }

  /** A predecessor that attains the minimum in `Best`. */
  ghost predicate GoodStep(pr: Problem, sel: bit, band: nat, res: bit, from: bit)
    requires 0 < band < |pr.metric|
  {
    Best(pr, sel, band, res)
      == Best(pr, sel, band - 1, from) + Switch(pr, from, res) + Distance(pr, sel, band, res)
  }

  /** The forward pass with recorded decisions. */
  method ForwardPass(pr: Problem, sel: bit, path0: array<bit>, path1: array<bit>) returns (cost0: int, cost1: int)
    requires pr.metric != [] && path0 != path1 && path0.Length == path1.Length == |pr.metric|
    modifies path0, path1
    ensures cost0 == Best(pr, sel, |pr.metric| - 1, 0) && cost1 == Best(pr, sel, |pr.metric| - 1, 1)
    ensures forall i | 0 < i < |pr.metric| :: GoodStep(pr, sel, i, 0, path0[i]) && GoodStep(pr, sel, i, 1, path1[i])
  {
    hide Distance;
    cost0, cost1 := 0, if pr.isTransient then 0 else pr.lambda;
    for i := 1 to |pr.metric|
      invariant cost0 == Best(pr, sel, i - 1, 0) && cost1 == Best(pr, sel, i - 1, 1)
      invariant forall k | 0 < k < i :: GoodStep(pr, sel, k, 0, path0[k]) && GoodStep(pr, sel, k, 1, path1[k])
    {
      var curr0, curr1;
      var from0, from1 := cost0, cost1 + pr.lambda;
      if from0 < from1 {
        curr0, path0[i] := from0, 0;
      } else {
        curr0, path0[i] := from1, 1;
      }
      from0, from1 := cost0 + pr.lambda, cost1;
      if from0 < from1 {
        curr1, path1[i] := from0, 0;
      } else {
        curr1, path1[i] := from1, 1;
      }
      cost0 := curr0 + Distance(pr, sel, i, 0);
      cost1 := curr1 + Distance(pr, sel, i, 1);
    }
  }

  /** The backward pass: following the decisions from the cheaper end yields a path of exactly that cost. */
  method BackwardPass(pr: Problem, sel: bit, path0: array<bit>, path1: array<bit>, cost0: int, cost1: int,
                      tfRes: array<bit>)
    requires pr.metric != [] && path0.Length == path1.Length == tfRes.Length == |pr.metric|
    requires tfRes != path0 && tfRes != path1
    requires cost0 == Best(pr, sel, |pr.metric| - 1, 0) && cost1 == Best(pr, sel, |pr.metric| - 1, 1)
    requires forall i | 0 < i < |pr.metric| :: GoodStep(pr, sel, i, 0, path0[i]) && GoodStep(pr, sel, i, 1, path1[i])
    modifies tfRes
    ensures Cost(pr, sel, tfRes[..]) == BestOverall(pr, sel)
  {
    hide Distance, Best;
    var len := |pr.metric|;
    tfRes[len - 1] := if cost0 < cost1 then 0 else 1;
    var i := len - 2;
    while i >= 0
      invariant -1 <= i <= len - 2
      invariant Best(pr, sel, i + 1, tfRes[i + 1]) + TailCost(pr, sel, tfRes[i + 1..], i + 1) == BestOverall(pr, sel)
    {
      ghost var tail := tfRes[i + 1..];
      if tfRes[i + 1] == 1 {
        tfRes[i] := path1[i + 1];
      } else {
        tfRes[i] := path0[i + 1];
      }
      assert GoodStep(pr, sel, i + 1, tfRes[i + 1], tfRes[i]);
      assert tfRes[i..][1..] == tail;
      i := i - 1;
    }
    assert tfRes[0..] == tfRes[..];
    BestAtStart(pr, sel, tfRes[0]);
  }

  /**
    * The search as a whole: the path left in `tfRes` is a cheapest one for the table that was chosen, costs what
    * the selection pass computed for it, and on a transient no path does better with either table.
    */
  method TfAnalysis(pr: Problem, tfRes: array<bit>) returns (tfSelect: bit)
    requires pr.metric != [] && tfRes.Length == |pr.metric|
    modifies tfRes
    ensures Cost(pr, tfSelect, tfRes[..]) == BestOverall(pr, tfSelect)
    ensures Cheapest(pr, tfSelect, Cost(pr, tfSelect, tfRes[..]))
    ensures !pr.isTransient ==> tfSelect == 0
    ensures pr.isTransient ==> forall sel: bit :: Cheapest(pr, sel, Cost(pr, tfSelect, tfRes[..]))
    ensures pr.isTransient && tfSelect == 1 ==> BestOverall(pr, 1) < BestOverall(pr, 0)
  {
    hide Cost, Best;
    var selcost0 := SelectCost(pr, 0);
    var selcost1 := SelectCost(pr, 1);
    tfSelect := 0;
    if selcost1 < selcost0 && pr.isTransient {
      tfSelect := 1;
    }
    var path0, path1 := new bit[|pr.metric|], new bit[|pr.metric|];
    var cost0, cost1 := ForwardPass(pr, tfSelect, path0, path1);
    BackwardPass(pr, tfSelect, path0, path1, cost0, cost1, tfRes);
    NoPathIsCheaper(pr, 0);
    NoPathIsCheaper(pr, 1);
    ghost var cost := Cost(pr, tfSelect, tfRes[..]);
    forall sel: bit | pr.isTransient ensures Cheapest(pr, sel, cost) {
      assert cost <= BestOverall(pr, sel);
      assert sel == 0 || sel == 1;
    }
  }
}
