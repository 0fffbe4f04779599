/** The load balancer of the airport scanners (test/scanners.c): each bag goes to a scanner
    with the least load so far, the lower-numbered one on a tie. */
module Greedy {
  import opened Codec
  import opened Words

  datatype Loads = Loads(s1: int, s2: int, s3: int)

  const IDLE := Loads(0, 0, 0)

  function Pick(l: Loads): (id: int)
    ensures 1 <= id <= 3
  {
    if l.s1 <= l.s2 && l.s1 <= l.s3 then 1 else if l.s2 <= l.s1 && l.s2 <= l.s3 then 2 else 3
  }

  function AddTo(l: Loads, id: int, w: int): Loads {
    if id == 1 then l.(s1 := l.s1 + w) else if id == 2 then l.(s2 := l.s2 + w) else l.(s3 := l.s3 + w)
  }

  function GreedyLoads(ws: seq<int>): Loads {
    if ws == [] then IDLE
    else
      var l := GreedyLoads(ws[..|ws| - 1]);
      AddTo(l, Pick(l), ws[|ws| - 1])
  }

  function GreedyIds(ws: seq<int>): (ids: seq<int>)
    ensures |ids| == |ws|
  {
    if ws == [] then [] else GreedyIds(ws[..|ws| - 1]) + [Pick(GreedyLoads(ws[..|ws| - 1]))]
  }

  // ----- any assignment of the bags to scanners

  ghost predicate IsAssignment(ws: seq<int>, ids: seq<int>) {
    |ids| == |ws| && forall i :: 0 <= i < |ids| ==> 1 <= ids[i] <= 3
  }

  ghost function LoadsOf(ws: seq<int>, ids: seq<int>): Loads
    requires IsAssignment(ws, ids)
  {
    if ws == [] then IDLE
    else AddTo(LoadsOf(ws[..|ws| - 1], ids[..|ws| - 1]), ids[|ws| - 1], ws[|ws| - 1])
  }

  ghost function Max(a: int, b: int): int {
    if a < b then b else a
  }

  ghost function Makespan(l: Loads): int {
    Max(l.s1, Max(l.s2, l.s3))
  }

  ghost function Least(l: Loads): int {
    -Max(-l.s1, Max(-l.s2, -l.s3))
  }

  ghost function Sum(ws: seq<int>): int {
    if ws == [] then 0 else Sum(ws[..|ws| - 1]) + ws[|ws| - 1]
  }

  ghost function Heaviest(ws: seq<int>): int {
    if ws == [] then 0 else Max(Heaviest(ws[..|ws| - 1]), ws[|ws| - 1])
  }

  ghost predicate NonNegative(ws: seq<int>) {
    forall i :: 0 <= i < |ws| ==> 0 <= ws[i]
  }

  /** The greedy ids are an assignment, and the totals kept are its loads. */
  lemma {:induction false} GreedyIsAssignment(ws: seq<int>)
    ensures IsAssignment(ws, GreedyIds(ws)) && LoadsOf(ws, GreedyIds(ws)) == GreedyLoads(ws)
  {
    if ws != [] {
      var n := |ws| - 1;
      GreedyIsAssignment(ws[..n]);
      assert GreedyIds(ws)[..n] == GreedyIds(ws[..n]);
    }
  }

  ghost predicate Covers(l: Loads, total: int, heaviest: int) {
    && l.s1 + l.s2 + l.s3 == total && Least(l) >= 0 && heaviest >= 0
    && heaviest <= Makespan(l)
  }

  lemma AddCovers(l: Loads, id: int, w: int, total: int, heaviest: int)
    requires Covers(l, total, heaviest) && 1 <= id <= 3 && w >= 0
    ensures Covers(AddTo(l, id, w), total + w, Max(heaviest, w))
  {
  }

  /** Under any assignment no weight is lost, and no scanner escapes the heaviest bag or the average. */
  lemma {:induction false} AnyAssignment(ws: seq<int>, ids: seq<int>)
    requires IsAssignment(ws, ids) && NonNegative(ws)
    ensures Covers(LoadsOf(ws, ids), Sum(ws), Heaviest(ws))
    ensures Sum(ws) <= 3 * Makespan(LoadsOf(ws, ids))
  {
    if ws != [] {
      var n := |ws| - 1;
      AnyAssignment(ws[..n], ids[..n]);
      AddCovers(LoadsOf(ws[..n], ids[..n]), ids[n], ws[n], Sum(ws[..n]), Heaviest(ws[..n]));
    }
  }

  ghost predicate Balanced(l: Loads, total: int, heaviest: int) {
    Makespan(l) - Least(l) <= heaviest && 3 * Makespan(l) <= total + 2 * heaviest
  }

  lemma PickIsLeast(l: Loads)
    ensures var least := if Pick(l) == 1 then l.s1 else if Pick(l) == 2 then l.s2 else l.s3;
      least == Least(l) && 3 * least <= l.s1 + l.s2 + l.s3
  {
  }

  lemma PickKeepsBalance(l: Loads, w: int, total: int, heaviest: int)
    requires Covers(l, total, heaviest) && Balanced(l, total, heaviest) && w >= 0
    ensures Balanced(AddTo(l, Pick(l), w), total + w, Max(heaviest, w))
  {
    PickIsLeast(l);
  }

  lemma {:induction false} GreedyCovers(ws: seq<int>)
    requires NonNegative(ws)
    ensures Covers(GreedyLoads(ws), Sum(ws), Heaviest(ws))
  {
    GreedyIsAssignment(ws);
    AnyAssignment(ws, GreedyIds(ws));
  }

  /** The greedy loads add up to the total weight, differ by at most the heaviest bag, and the largest
      is at most the average plus two thirds of the heaviest bag. */
  lemma GreedyBalance(ws: seq<int>)
    requires NonNegative(ws)
    ensures Covers(GreedyLoads(ws), Sum(ws), Heaviest(ws)) && Balanced(GreedyLoads(ws), Sum(ws), Heaviest(ws))
  {
    GreedyCovers(ws);
    GreedyStaysBalanced(ws);
  }

  lemma {:induction false} GreedyStaysBalanced(ws: seq<int>)
    requires NonNegative(ws)
    ensures Balanced(GreedyLoads(ws), Sum(ws), Heaviest(ws))
  {
    if ws != [] {
      var n := |ws| - 1;
      var front, l := ws[..n], GreedyLoads(ws[..n]);
      GreedyStaysBalanced(front);
      GreedyCovers(front);
      PickKeepsBalance(l, ws[n], Sum(front), Heaviest(front));
      assert GreedyLoads(ws) == AddTo(l, Pick(l), ws[n]);
      assert Sum(ws) == Sum(front) + ws[n] && Heaviest(ws) == Max(Heaviest(front), ws[n]);
    }
  }

  /** Greedy is never worse than five thirds of any other assignment. */
  lemma GreedyRatio(ws: seq<int>, ids: seq<int>)
    requires NonNegative(ws) && IsAssignment(ws, ids)
    ensures 3 * Makespan(GreedyLoads(ws)) <= 5 * Makespan(LoadsOf(ws, ids))
  {
    GreedyBalance(ws);
    AnyAssignment(ws, ids);
  }

  lemma OneMore(ws: seq<int>, ids: seq<int>, w: int, id: int)
    requires IsAssignment(ws, ids) && 1 <= id <= 3
    ensures GreedyLoads(ws + [w]) == AddTo(GreedyLoads(ws), Pick(GreedyLoads(ws)), w)
    ensures IsAssignment(ws + [w], ids + [id]) && LoadsOf(ws + [w], ids + [id]) == AddTo(LoadsOf(ws, ids), id, w)
  {
    assert (ws + [w])[..|ws|] == ws && (ids + [id])[..|ws|] == ids;
  }

  /** And five thirds is reached: six unit bags, then one of three. */
  lemma GreedyRatioIsTight() returns (ws: seq<int>, ids: seq<int>)
    ensures NonNegative(ws) && ws != [] && IsAssignment(ws, ids)
    ensures Makespan(LoadsOf(ws, ids)) > 0 && 3 * Makespan(GreedyLoads(ws)) == 5 * Makespan(LoadsOf(ws, ids))
  {
    ws, ids := ThreeUnits([], [], 0, IDLE, 1);
    ws, ids := ThreeUnits(ws, ids, 1, Loads(3, 0, 0), 2);
    OneMore(ws, ids, 3, 3);
    ws, ids := ws + [3], ids + [3];
    assert GreedyLoads(ws) == Loads(5, 2, 2) && LoadsOf(ws, ids) == Loads(3, 3, 3);
  }

  /** Three unit bags, given by greedy to each scanner in turn and by the other assignment to one. */
  lemma ThreeUnits(ws0: seq<int>, ids0: seq<int>, k: nat, l: Loads, id: int) returns (ws: seq<int>, ids: seq<int>)
    requires NonNegative(ws0) && IsAssignment(ws0, ids0) && 1 <= id <= 3
    requires GreedyLoads(ws0) == Loads(k, k, k) && LoadsOf(ws0, ids0) == l
    ensures NonNegative(ws) && IsAssignment(ws, ids)
    ensures GreedyLoads(ws) == Loads(k + 1, k + 1, k + 1) && LoadsOf(ws, ids) == AddTo(l, id, 3)
  {
    OneMore(ws0, ids0, 1, id);
    ws, ids := ws0 + [1], ids0 + [id];
    OneMore(ws, ids, 1, id);
    ws, ids := ws + [1], ids + [id];
    OneMore(ws, ids, 1, id);
    ws, ids := ws + [1], ids + [id];
  }

  // ----- the same with the program's ints

  function AddInt(l: Loads, id: int, w: int): Loads {
    var sum := AddTo(l, id, w);
    Loads(Wrap(sum.s1), Wrap(sum.s2), Wrap(sum.s3))
  }

  function IntLoads(ws: seq<int>): Loads {
    if ws == [] then IDLE
    else
      var l := IntLoads(ws[..|ws| - 1]);
      AddInt(l, Pick(l), ws[|ws| - 1])
  }

  function IntIds(ws: seq<int>): (ids: seq<int>)
    ensures |ids| == |ws|
  {
    if ws == [] then [] else IntIds(ws[..|ws| - 1]) + [Pick(IntLoads(ws[..|ws| - 1]))]
  }

  ghost predicate Fit(l: Loads) {
    0 <= l.s1 < 0x8000_0000 && 0 <= l.s2 < 0x8000_0000 && 0 <= l.s3 < 0x8000_0000
  }

  /** As long as the total weight fits in an int, so does every load. */
  lemma LoadsFit(ws: seq<int>)
    requires NonNegative(ws) && Sum(ws) < 0x8000_0000
    ensures Fit(GreedyLoads(ws))
  {
    GreedyCovers(ws);
  }

  lemma AddIntFits(l: Loads, id: int, w: int)
    requires Fit(AddTo(l, id, w))
    ensures AddInt(l, id, w) == AddTo(l, id, w)
  {
    WrapExact(AddTo(l, id, w).s1);
    WrapExact(AddTo(l, id, w).s2);
    WrapExact(AddTo(l, id, w).s3);
  }

  /** The program's totals are the true ones exactly when those fit in ints, and then its choices are greedy's. */
  lemma {:induction false} IntsAgree(ws: seq<int>)
    requires NonNegative(ws)
    ensures IntLoads(ws) == GreedyLoads(ws) <==> Fit(GreedyLoads(ws))
    ensures Fit(GreedyLoads(ws)) ==> IntIds(ws) == GreedyIds(ws)
  {
    if ws != [] {
      var n := |ws| - 1;
      var l := GreedyLoads(ws[..n]);
      IntsAgree(ws[..n]);
      GreedyCovers(ws);
      GreedyCovers(ws[..n]);
      if Fit(GreedyLoads(ws)) {
        assert Fit(l);
        AddIntFits(l, Pick(l), ws[n]);
      }
    }
  }

  /** The totals fit before the last bag is given out, if there is one. */
  ghost predicate FitsBeforeLast(ws: seq<int>) {
    ws == [] || Fit(GreedyLoads(ws[..|ws| - 1]))
  }

  /** A total that has just overflowed is negative: the program then picks that scanner again, and greedy another. */
  lemma OverflowMisleads(l: Loads, w: int)
    requires Fit(l) && 0 <= w < 0x8000_0000 && !Fit(AddTo(l, Pick(l), w))
    ensures Pick(AddInt(l, Pick(l), w)) == Pick(l) != Pick(AddTo(l, Pick(l), w))
  {
    WrapExact(l.s1);
    WrapExact(l.s2);
    WrapExact(l.s3);
    OverflowWraps(l.s1 + w);
    OverflowWraps(l.s2 + w);
    OverflowWraps(l.s3 + w);
  }

  lemma OverflowWraps(x: int)
    requires 0 <= x < 0x1_0000_0000
    ensures x >= 0x8000_0000 ==> Wrap(x) < 0
  {
  }

  /** The program's choices are greedy's exactly when no total overflows before the last bag. */
  lemma {:induction false} IdsAgree(ws: seq<int>)
    requires forall i :: 0 <= i < |ws| ==> 0 <= ws[i] < 0x8000_0000
    ensures IntIds(ws) == GreedyIds(ws) <==> FitsBeforeLast(ws)
  {
    if ws != [] {
      var front := ws[..|ws| - 1];
      IdsAgree(front);
      IntsAgree(front);
      SameFront(IntIds(front), Pick(IntLoads(front)), GreedyIds(front), Pick(GreedyLoads(front)));
      if !Fit(GreedyLoads(front)) && FitsBeforeLast(front) {
        var l := GreedyLoads(front[..|front| - 1]);
        IntsAgree(front[..|front| - 1]);
        OverflowMisleads(l, front[|front| - 1]);
      }
    }
  }

  lemma SameFront<X>(s: seq<X>, x: X, t: seq<X>, y: X)
    requires |s| == |t|
    ensures s + [x] == t + [y] <==> s == t && x == y
  {
    if s + [x] == t + [y] {
      assert s == (s + [x])[..|s|] && t == (t + [y])[..|s|];
      assert (s + [x])[|s|] == x && (t + [y])[|s|] == y;
    }
  }

  // ----- the choice, told from the weights given out alone

  /** The weight given to scanner j. */
  ghost function Given(ws: seq<int>, ids: seq<int>, j: int): int
    requires |ids| == |ws|
  {
    if ws == [] then 0
    else
      var n := |ws| - 1;
      Given(ws[..n], ids[..n], j) + if ids[n] == j then ws[n] else 0
  }

  /** That weight, or what is left of it in an int. */
  ghost function Total(ws: seq<int>, ids: seq<int>, j: int, ints: bool): int
    requires |ids| == |ws|
  {
    if ints then Wrap(Given(ws, ids, j)) else Given(ws, ids, j)
  }

  /** The scanner has the least total, and every scanner before it has more. */
  ghost predicate LeastFirst(ws: seq<int>, ids: seq<int>, id: int, ints: bool)
    requires |ids| == |ws|
  {
    && 1 <= id <= 3
    && (forall j :: 1 <= j <= 3 ==> Total(ws, ids, id, ints) <= Total(ws, ids, j, ints))
    && (forall j :: 1 <= j < id ==> Total(ws, ids, id, ints) < Total(ws, ids, j, ints))
  }

  ghost predicate Greedily(ws: seq<int>, ids: seq<int>, ints: bool) {
    |ids| == |ws| && forall i :: 0 <= i < |ws| ==> LeastFirst(ws[..i], ids[..i], ids[i], ints)
  }

  ghost function Totals(ws: seq<int>, ids: seq<int>, ints: bool): Loads
    requires |ids| == |ws|
  {
    Loads(Total(ws, ids, 1, ints), Total(ws, ids, 2, ints), Total(ws, ids, 3, ints))
  }

  lemma PickIsLeastFirst(ws: seq<int>, ids: seq<int>, id: int, ints: bool)
    requires |ids| == |ws|
    ensures LeastFirst(ws, ids, id, ints) <==> id == Pick(Totals(ws, ids, ints))
  {
  }

  lemma TotalsStep(ws: seq<int>, ids: seq<int>, w: int, id: int)
    requires |ids| == |ws| && 1 <= id <= 3
    ensures Totals(ws + [w], ids + [id], false) == AddTo(Totals(ws, ids, false), id, w)
    ensures Totals(ws + [w], ids + [id], true) == AddInt(Totals(ws, ids, true), id, w)
  {
    assert (ws + [w])[..|ws|] == ws && (ids + [id])[..|ws|] == ids;
    forall j | 1 <= j <= 3
      ensures Given(ws + [w], ids + [id], j) == Given(ws, ids, j) + if id == j then w else 0
    {
    }
    WrapAdd(Given(ws, ids, 1), w);
    WrapAdd(Given(ws, ids, 2), w);
    WrapAdd(Given(ws, ids, 3), w);
  }

  lemma WrapAdd(x: int, w: int)
    ensures Wrap(Wrap(x) + w) == Wrap(x + w) && Wrap(Wrap(x)) == Wrap(x)
  {
    var q := (x - Wrap(x)) / WORD_SIZE;
    assert x == Wrap(x) + q * WORD_SIZE;
    WrapShift(Wrap(x) + w, q);
    WrapShift(Wrap(x), q);
  }

  lemma {:induction false} LoadsAreTotals(ws: seq<int>)
    ensures Totals(ws, GreedyIds(ws), false) == GreedyLoads(ws) && Totals(ws, IntIds(ws), true) == IntLoads(ws)
  {
    if ws != [] {
      var n := |ws| - 1;
      LoadsAreTotals(ws[..n]);
      assert ws == ws[..n] + [ws[n]];
      TotalsStep(ws[..n], GreedyIds(ws[..n]), ws[n], Pick(GreedyLoads(ws[..n])));
      TotalsStep(ws[..n], IntIds(ws[..n]), ws[n], Pick(IntLoads(ws[..n])));
    }
  }

  ghost function Chosen(ws: seq<int>, ints: bool): (ids: seq<int>)
    ensures |ids| == |ws|
  {
    if ints then IntIds(ws) else GreedyIds(ws)
  }

  lemma GreedilyStep(ws: seq<int>, ids: seq<int>, ints: bool)
    requires ws != [] && |ids| == |ws|
    ensures var n := |ws| - 1;
      Greedily(ws, ids, ints) <==> Greedily(ws[..n], ids[..n], ints) && LeastFirst(ws[..n], ids[..n], ids[n], ints)
  {
    var n := |ws| - 1;
    forall i | 0 <= i < n
      ensures ws[..n][..i] == ws[..i] && ids[..n][..i] == ids[..i] && ids[..n][i] == ids[i]
    {
    }
  }

  /** The ids given out are the only ones in which every bag goes to the first scanner with the least total so far. */
  lemma {:induction false} OnlyGreedy(ws: seq<int>, ids: seq<int>, ints: bool)
    requires |ids| == |ws|
    ensures Greedily(ws, ids, ints) <==> ids == Chosen(ws, ints)
    decreases |ws|
  {
    if ws != [] {
      var n := |ws| - 1;
      var front, before := ws[..n], Chosen(ws[..n], ints);
      OnlyGreedy(front, ids[..n], ints);
      GreedilyStep(ws, ids, ints);
      LoadsAreTotals(front);
      PickIsLeastFirst(front, before, ids[n], ints);
      SameFront(ids[..n], ids[n], before, Pick(Totals(front, before, ints)));
      assert ids == ids[..n] + [ids[n]];
    }
  }
}
