/**
  Dynamic programming over a trellis, the part that the three Viterbi decoders share
  (gsm-parser/sch.c, gsm-parser/viterbi.c, libosmocore/src/conv.c).  A trellis is a sequence of
  stages; a stage lists its edges in the order in which a decoder scans them.
 */
module Trellis {

  /** The metric of a state that no path reaches, in both soft decoders. */
  const MAX_AE := 0x00ffffff

  datatype Edge = Edge(src: nat, dst: nat, bit: nat, cost: nat)

  type Stage = seq<Edge>

  predicate StageOk(stage: Stage, n: nat) {
    forall i :: 0 <= i < |stage| ==> stage[i].src < n && stage[i].dst < n
  }

  predicate TrellisOk(tr: seq<Stage>, n: nat) {
    forall t :: 0 <= t < |tr| ==> StageOk(tr[t], n)
  }

  /** Metric of the survivor into a state and the index of its last edge (-1: none yet). */
  datatype Survivor = Survivor(metric: nat, edge: int)

  /** The survivor into `q` once the first `k` edges have been scanned; nothing of metric `cap`
      or more survives. */
  function Relax(stage: Stage, ae: seq<nat>, cap: nat, q: nat, k: nat): (r: Survivor)
    requires StageOk(stage, |ae|) && k <= |stage|
    ensures r.metric <= cap
    ensures r.metric < cap ==> 0 <= r.edge < k && stage[r.edge].dst == q
                               && r.metric == ae[stage[r.edge].src] + stage[r.edge].cost
  {
    if k == 0 then Survivor(cap, -1)
    else
      var r := Relax(stage, ae, cap, q, k - 1);
      var e := stage[k - 1];
      if e.dst == q && ae[e.src] + e.cost < r.metric then Survivor(ae[e.src] + e.cost, k - 1) else r
  }

  /** No scanned edge into `q` beats the survivor. */
  lemma {:induction false} RelaxLeast(stage: Stage, ae: seq<nat>, cap: nat, q: nat, k: nat, i: nat)
    requires StageOk(stage, |ae|) && i < k <= |stage| && stage[i].dst == q
    ensures Relax(stage, ae, cap, q, k).metric <= ae[stage[i].src] + stage[i].cost
  {
    if i < k - 1 {
      RelaxLeast(stage, ae, cap, q, k - 1, i);
    }
  }

  /** Among equally good edges the first one survives. */
  lemma {:induction false} RelaxFirst(stage: Stage, ae: seq<nat>, cap: nat, q: nat, k: nat, i: nat)
    requires StageOk(stage, |ae|) && i < k <= |stage| && stage[i].dst == q
    requires ae[stage[i].src] + stage[i].cost <= Relax(stage, ae, cap, q, k).metric < cap
    ensures Relax(stage, ae, cap, q, k).edge <= i
  {
    if i < k - 1 {
      RelaxLeast(stage, ae, cap, q, k - 1, i);
      RelaxFirst(stage, ae, cap, q, k - 1, i);
    }
  }

  /** The survivors into all states after the first `k` edges. */
  function Scan(stage: Stage, ae: seq<nat>, cap: nat, k: nat): (row: seq<Survivor>)
    requires StageOk(stage, |ae|) && k <= |stage|
    ensures |row| == |ae|
  {
    seq(|ae|, q requires 0 <= q => Relax(stage, ae, cap, q, k))
  }

  lemma ScanStart(stage: Stage, ae: seq<nat>, cap: nat)
    requires StageOk(stage, |ae|)
    ensures Scan(stage, ae, cap, 0) == seq(|ae|, q => Survivor(cap, -1))
  {
  }

  /** What one inner iteration of a decoder does to the survivors. */
  lemma ScanStep(stage: Stage, ae: seq<nat>, cap: nat, k: nat)
    requires StageOk(stage, |ae|) && k < |stage|
    ensures var row, e := Scan(stage, ae, cap, k), stage[k];
            Scan(stage, ae, cap, k + 1) ==
            if ae[e.src] + e.cost < row[e.dst].metric then row[e.dst := Survivor(ae[e.src] + e.cost, k)] else row
  {
  }

  /** The accumulated errors after the whole trellis, starting from state 0. */
  function Metrics(tr: seq<Stage>, n: nat, cap: nat): (m: seq<nat>)
    requires TrellisOk(tr, n)
    ensures |m| == n && forall q :: 0 <= q < n ==> m[q] <= cap
  {
    if tr == [] then seq(n, q => if q == 0 then 0 else cap)
    else
      var last, prev := tr[|tr| - 1], Metrics(tr[..|tr| - 1], n, cap);
      seq(n, q requires 0 <= q => Relax(last, prev, cap, q, |last|).metric)
  }

  /** The edge by which the survivor enters state `q` after the last stage. */
  function LastEdge(tr: seq<Stage>, n: nat, cap: nat, q: nat): (e: Edge)
    requires TrellisOk(tr, n) && tr != [] && q < n && Metrics(tr, n, cap)[q] < cap
    ensures e in tr[|tr| - 1] && e.dst == q && e.src < n
    ensures var prev := Metrics(tr[..|tr| - 1], n, cap);
            Metrics(tr, n, cap)[q] == prev[e.src] + e.cost && prev[e.src] < cap
  {
    var last, prev := tr[|tr| - 1], Metrics(tr[..|tr| - 1], n, cap);
    last[Relax(last, prev, cap, q, |last|).edge]
  }

  // ---- paths ----

  /** `path` takes one edge of each stage and leads from state 0 to state `q`. */
  predicate IsPath(tr: seq<Stage>, path: seq<Edge>, q: nat) {
    && |path| == |tr|
    && if tr == [] then q == 0
       else
         var k := |tr| - 1;
         path[k] in tr[k] && path[k].dst == q && IsPath(tr[..k], path[..k], path[k].src)
  }

  function Cost(path: seq<Edge>): nat {
    if path == [] then 0 else Cost(path[..|path| - 1]) + path[|path| - 1].cost
  }

  /** No path into a state is cheaper than the metric of that state. */
  lemma {:induction false} MetricsLeast(tr: seq<Stage>, n: nat, cap: nat, path: seq<Edge>, q: nat)
    requires TrellisOk(tr, n) && IsPath(tr, path, q) && 0 < n
    ensures q < n && Metrics(tr, n, cap)[q] <= Cost(path)
  {
    if tr != [] {
      var k := |tr| - 1;
      var e := path[k];
      MetricsLeast(tr[..k], n, cap, path[..k], e.src);
      var i :| 0 <= i < |tr[k]| && tr[k][i] == e;
      RelaxLeast(tr[k], Metrics(tr[..k], n, cap), cap, q, |tr[k]|, i);
    }
  }

  /** The path that the survivors describe, read backwards from state `q`. */
  function Traced(tr: seq<Stage>, n: nat, cap: nat, q: nat): (path: seq<Edge>)
    requires TrellisOk(tr, n) && q < n && Metrics(tr, n, cap)[q] < cap
    ensures IsPath(tr, path, q) && Cost(path) == Metrics(tr, n, cap)[q]
  {
    if tr == [] then []
    else
      var k, e := |tr| - 1, LastEdge(tr, n, cap, q);
      var init := Traced(tr[..k], n, cap, e.src);
      assert (init + [e])[..k] == init;
      init + [e]
  }

  function Bits(path: seq<Edge>): (r: seq<nat>)
    ensures |r| == |path|
  {
    seq(|path|, i requires 0 <= i < |path| => path[i].bit)
  }
}
