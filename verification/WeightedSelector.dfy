/** The weighted selector of weighted_selector.cc: a scheduler that always picks the entry with
    the least count-to-weight ratio. Ratios are compared exactly, by cross multiplication. */
module WeightedSelector {

  /** A count divided by a weight. As in floating point, 0 / 0 is no number and c / 0 infinite. */
  datatype Score = NotANumber | Infinite | Ratio(num: int, den: int)

  function ScoreOf(c: nat, w: int): Score {
    if w > 0 then Ratio(c, w)
    else if w < 0 then Ratio(-(c as int), -w)
    else if c == 0 then NotANumber
    else Infinite
  }

  /** What is no number is not less than anything, nor anything less than it. */
  predicate Less(a: Score, b: Score) {
    a.Ratio? && (b.Infinite? || (b.Ratio? && a.num * b.den < b.num * a.den))
  }

  /** The index that a scan for the least score of the first n entries ends with. */
  function PickIndex(ws: seq<int>, cs: seq<nat>, n: nat): (k: nat)
    requires 0 < n <= |ws| == |cs|
    ensures k < n
  {
    if n == 1 then 0
    else
      var k := PickIndex(ws, cs, n - 1);
      if Less(ScoreOf(cs[n - 1], ws[n - 1]), ScoreOf(cs[k], ws[k])) then n - 1 else k
  }

  predicate Positive(ws: seq<int>) {
    forall i :: 0 <= i < |ws| ==> ws[i] > 0
  }

  lemma Cancel(x: int, y: int, k: int)
    requires k > 0 && x * k <= y * k
    ensures x <= y
  {
  }

  lemma Swap(a: int, b: int, c: int)
    ensures (a * b) * c == (a * c) * b
  {
  }

  lemma Grow(x: int, y: int, k: int)
    requires k >= 0 && x <= y
    ensures x * k <= y * k
  {
  }

  lemma Exchange(a: nat, x: nat, b: nat, y: nat, c: nat, z: nat)
    requires y > 0 && a * y <= b * x && b * z <= c * y
    ensures a * z <= c * x
  {
    Swap(a, z, y);
    Grow(a * y, b * x, z);
    Swap(b, x, z);
    Grow(b * z, c * y, x);
    Swap(c, y, x);
    Cancel(a * z, c * x, y);
  }

  /** The pick has the least ratio. */
  lemma {:induction false} PickIsLeast(ws: seq<nat>, cs: seq<nat>, n: nat, j: nat)
    requires 0 < n <= |ws| == |cs| && Positive(ws) && j < n
    ensures var k := PickIndex(ws, cs, n); cs[k] * ws[j] <= cs[j] * ws[k]
  {
    if n > 1 {
      var k := PickIndex(ws, cs, n - 1);
      if j < n - 1 {
        PickIsLeast(ws, cs, n - 1, j);
        if cs[n - 1] * ws[k] < cs[k] * ws[n - 1] {
          Exchange(cs[n - 1], ws[n - 1], cs[k], ws[k], cs[j], ws[j]);
        }
      }
    }
  }

  // ---------- runs

  /** How often each entry has been picked after n picks. */
  function CountsAfter(ws: seq<int>, n: nat): (cs: seq<nat>)
    requires ws != []
    ensures |cs| == |ws|
  {
    if n == 0 then seq(|ws|, _ => 0)
    else
      var cs := CountsAfter(ws, n - 1);
      var k := PickIndex(ws, cs, |ws|);
      cs[k := cs[k] + 1]
  }

  /** The entry of pick number n, counting from 0. */
  function PickAt(ws: seq<int>, n: nat): (k: nat)
    requires ws != []
    ensures k < |ws|
  {
    PickIndex(ws, CountsAfter(ws, n), |ws|)
  }

  /** No entry is more than one pick ahead of another, in proportion to their weights. */
  ghost predicate Close(ws: seq<nat>, cs: seq<nat>, i: nat, j: nat)
    requires |ws| == |cs| && i < |ws| && j < |ws|
  {
    cs[i] > 0 ==> (cs[i] - 1) * ws[j] <= cs[j] * ws[i]
  }

  lemma {:induction false} AlwaysClose(ws: seq<nat>, n: nat, i: nat, j: nat)
    requires Positive(ws) && i < |ws| && j < |ws|
    ensures Close(ws, CountsAfter(ws, n), i, j)
    decreases n
  {
    if n > 0 {
      var cs := CountsAfter(ws, n - 1);
      var k := PickIndex(ws, cs, |ws|);
      AlwaysClose(ws, n - 1, i, j);
      PickIsLeast(ws, cs, |ws|, j);
      Grow(cs[j], cs[j] + 1, ws[i]);
    }
  }

  // ---------- sums

  function Sum(xs: seq<nat>): nat {
    if xs == [] then 0 else Sum(xs[..|xs| - 1]) + xs[|xs| - 1]
  }

  lemma {:induction false} SumUpdate(xs: seq<nat>, k: nat)
    requires k < |xs|
    ensures Sum(xs[k := xs[k] + 1]) == Sum(xs) + 1
  {
    var ys := xs[k := xs[k] + 1];
    if k == |xs| - 1 {
      assert ys[..|xs| - 1] == xs[..|xs| - 1];
    } else {
      SumUpdate(xs[..|xs| - 1], k);
      assert ys[..|xs| - 1] == xs[..|xs| - 1][k := xs[k] + 1];
    }
  }

  lemma {:induction false} SumOfZeros(n: nat)
    ensures Sum(seq(n, _ => 0)) == 0
  {
    if n > 0 {
      SumOfZeros(n - 1);
      assert seq(n, _ => 0)[..n - 1] == seq(n - 1, _ => 0);
    }
  }

  lemma {:induction false} CountsSumToPicks(ws: seq<nat>, n: nat)
    requires ws != []
    ensures Sum(CountsAfter(ws, n)) == n
  {
    if n == 0 {
      SumOfZeros(|ws|);
    } else {
      CountsSumToPicks(ws, n - 1);
      SumUpdate(CountsAfter(ws, n - 1), PickAt(ws, n - 1));
    }
  }

  lemma AddUp(c: int, s: int, w: int, t: int, u: int, v: int)
    ensures c * s <= t * v && c * w <= u * v ==> c * (s + w) <= (t + u) * v
    ensures t * v <= c * s && u * v <= c * w ==> (t + u) * v <= c * (s + w)
  {
    assert c * (s + w) == c * s + c * w;
    assert (t + u) * v == t * v + u * v;
  }

  lemma SumStep(xs: seq<nat>, m: nat)
    requires 0 < m <= |xs|
    ensures Sum(xs[..m]) == Sum(xs[..m - 1]) + xs[m - 1]
  {
    assert xs[..m][..m - 1] == xs[..m - 1];
  }

  /** Summing Close over its second index. */
  lemma {:induction false} SumAhead(ws: seq<nat>, cs: seq<nat>, i: nat, m: nat)
    requires |ws| == |cs| && i < |ws| && m <= |ws| && cs[i] > 0
    requires forall j :: 0 <= j < |ws| ==> Close(ws, cs, i, j)
    ensures (cs[i] - 1) * Sum(ws[..m]) <= (Sum(cs[..m]) - (if i < m then 1 else 0)) * ws[i]
    decreases m
  {
    if m > 0 {
      SumAhead(ws, cs, i, m - 1);
      SumStep(ws, m);
      SumStep(cs, m);
      assert Close(ws, cs, i, m - 1);
      var before: int := Sum(cs[..m - 1]) - (if i < m - 1 then 1 else 0);
      var here: int := cs[m - 1] as int - (if i == m - 1 then 1 else 0);
      AddUp(cs[i] - 1, Sum(ws[..m - 1]), ws[m - 1], before, here, ws[i]);
    }
  }

  /** Summing Close over its first index. */
  lemma {:induction false} SumBehind(ws: seq<nat>, cs: seq<nat>, j: nat, m: nat)
    requires |ws| == |cs| && j < |ws| && m <= |ws|
    requires forall i :: 0 <= i < |ws| ==> Close(ws, cs, i, j)
    ensures (Sum(cs[..m]) - (if j < m then m - 1 else m)) * ws[j] <= cs[j] * Sum(ws[..m])
    decreases m
  {
    if m > 0 {
      SumBehind(ws, cs, j, m - 1);
      SumStep(ws, m);
      SumStep(cs, m);
      assert Close(ws, cs, m - 1, j);
      var before: int := Sum(cs[..m - 1]) - (if j < m - 1 then m - 2 else m - 1);
      var here: int := cs[m - 1] as int - (if j == m - 1 then 0 else 1);
      Grow(0, cs[j], ws[m - 1]);
      AddUp(cs[j], Sum(ws[..m - 1]), ws[m - 1], before, here, ws[j]);
    }
  }

  // ---------- fairness

  /** After n picks, an entry of weight w out of W that was picked c times satisfies
      (c - 1) W <= (n - 1) w and, among k entries, c W >= (n - (k - 1)) w. */
  lemma Fairness(ws: seq<nat>, n: nat, i: nat)
    requires Positive(ws) && i < |ws|
    ensures var c := CountsAfter(ws, n)[i];
            && (c > 0 ==> (c - 1) * Sum(ws) <= (n - 1) * ws[i])
            && c * Sum(ws) >= (n - (|ws| - 1)) * ws[i]
  {
    var cs := CountsAfter(ws, n);
    forall j | 0 <= j < |ws| ensures Close(ws, cs, i, j) && Close(ws, cs, j, i) {
      AlwaysClose(ws, n, i, j);
      AlwaysClose(ws, n, j, i);
    }
    BehindBound(ws, cs, i);
    if cs[i] > 0 { AheadBound(ws, cs, i); }
    CountsSumToPicks(ws, n);
  }

  lemma AheadBound(ws: seq<nat>, cs: seq<nat>, i: nat)
    requires |ws| == |cs| && i < |ws| && cs[i] > 0
    requires forall j :: 0 <= j < |ws| ==> Close(ws, cs, i, j)
    ensures (cs[i] - 1) * Sum(ws) <= (Sum(cs) - 1) * ws[i]
  {
    SumAhead(ws, cs, i, |ws|);
    assert ws[..|ws|] == ws && cs[..|ws|] == cs;
  }

  lemma BehindBound(ws: seq<nat>, cs: seq<nat>, i: nat)
    requires |ws| == |cs| && i < |ws|
    requires forall j :: 0 <= j < |ws| ==> Close(ws, cs, j, i)
    ensures (Sum(cs) - (|ws| - 1)) * ws[i] <= cs[i] * Sum(ws)
  {
    SumBehind(ws, cs, i, |ws|);
    assert ws[..|ws|] == ws && cs[..|ws|] == cs;
  }

  lemma {:induction false} SumPositive(ws: seq<nat>)
    requires Positive(ws) && ws != []
    ensures Sum(ws) > 0
  {
  }

  lemma ShareArithmetic(c: nat, q: nat, w: nat, total: nat)
    requires total > 0 && w > 0 && c > 0 && (c - 1) * total <= (q * total - 1) * w
    ensures c <= q * w
  {
    assert (q * total - 1) * w == (q * w) * total - w;
    assert (c - 1) * total < (q * w) * total;
  }

  lemma AtMostShare(ws: seq<nat>, q: nat, i: nat)
    requires Positive(ws) && i < |ws|
    ensures CountsAfter(ws, q * Sum(ws))[i] <= q * ws[i]
  {
    var c := CountsAfter(ws, q * Sum(ws))[i];
    Fairness(ws, q * Sum(ws), i);
    SumPositive(ws);
    if c > 0 { ShareArithmetic(c, q, ws[i], Sum(ws)); }
  }

  lemma Spread(a: int, b: int, w: int)
    ensures (a + b) * w == a * w + b * w
  {
  }

  lemma Times(q: int, a: int, b: int)
    ensures q * (a + b) == q * a + q * b
  {
  }

  lemma SumTimes(ws: seq<nat>, q: nat)
    requires ws != []
    ensures q * Sum(ws) == q * Sum(ws[..|ws| - 1]) + q * ws[|ws| - 1]
  {
    var a, b := Sum(ws[..|ws| - 1]), ws[|ws| - 1];
    assert Sum(ws) == a + b;
    Times(q, a, b);
  }

  /** No entry has more than q times its weight. */
  ghost predicate Within(ws: seq<nat>, cs: seq<nat>, q: nat) {
    |ws| == |cs| && forall i :: 0 <= i < |ws| ==> cs[i] <= q * ws[i]
  }

  lemma {:induction false} SharesBound(ws: seq<nat>, cs: seq<nat>, q: nat)
    requires Within(ws, cs, q)
    ensures Sum(cs) <= q * Sum(ws)
  {
    if ws != [] {
      SharesBound(ws[..|ws| - 1], cs[..|ws| - 1], q);
      SumTimes(ws, q);
    }
  }

  /** Shares that are nowhere exceeded and add up are met everywhere. */
  lemma {:induction false} SharesMet(ws: seq<nat>, cs: seq<nat>, q: nat, i: nat)
    requires Within(ws, cs, q) && Sum(cs) == q * Sum(ws) && i < |ws|
    ensures cs[i] == q * ws[i]
  {
    var m := |ws| - 1;
    SharesBound(ws[..m], cs[..m], q);
    SumTimes(ws, q);
    if i < m { SharesMet(ws[..m], cs[..m], q, i); }
  }

  /** Whenever the number of picks is a multiple of the total weight, every entry has been
      picked exactly in proportion to its weight. */
  lemma ExactShares(ws: seq<nat>, q: nat, i: nat)
    requires Positive(ws) && i < |ws|
    ensures CountsAfter(ws, q * Sum(ws))[i] == q * ws[i]
  {
    var cs := CountsAfter(ws, q * Sum(ws));
    forall j | 0 <= j < |ws| ensures cs[j] <= q * ws[j] { AtMostShare(ws, q, j); }
    CountsSumToPicks(ws, q * Sum(ws));
    SharesMet(ws, cs, q, i);
  }

  // ---------- the schedule repeats

  /** ds counts one whole round more than cs. */
  ghost predicate RoundLater(ws: seq<nat>, cs: seq<nat>, ds: seq<nat>) {
    |ws| == |cs| == |ds| && forall i :: 0 <= i < |ws| ==> ds[i] == cs[i] + ws[i]
  }

  lemma {:induction false} PickIgnoresWholeRounds(ws: seq<nat>, cs: seq<nat>, ds: seq<nat>, n: nat)
    requires 0 < n <= |ws| && Positive(ws) && RoundLater(ws, cs, ds)
    ensures PickIndex(ws, ds, n) == PickIndex(ws, cs, n)
  {
    if n > 1 {
      PickIgnoresWholeRounds(ws, cs, ds, n - 1);
      var k := PickIndex(ws, cs, n - 1);
      Spread(cs[n - 1], ws[n - 1], ws[k]);
      Spread(cs[k], ws[k], ws[n - 1]);
    }
  }

  lemma CountsStep(ws: seq<int>, n: nat)
    requires ws != []
    ensures var cs, k := CountsAfter(ws, n), PickAt(ws, n); CountsAfter(ws, n + 1) == cs[k := cs[k] + 1]
  {
  }

  lemma {:induction false} CountsRoundLater(ws: seq<nat>, n: nat)
    requires Positive(ws) && ws != []
    ensures RoundLater(ws, CountsAfter(ws, n), CountsAfter(ws, Sum(ws) + n))
  {
    if n == 0 {
      forall i | 0 <= i < |ws| ensures CountsAfter(ws, Sum(ws))[i] == ws[i] { ExactShares(ws, 1, i); }
    } else {
      CountsRoundLater(ws, n - 1);
      PickIgnoresWholeRounds(ws, CountsAfter(ws, n - 1), CountsAfter(ws, Sum(ws) + n - 1), |ws|);
      CountsStep(ws, n - 1);
      CountsStep(ws, Sum(ws) + n - 1);
    }
  }

  /** The picks repeat with the total weight as period. */
  lemma ScheduleRepeats(ws: seq<nat>, n: nat)
    requires Positive(ws) && ws != []
    ensures PickAt(ws, Sum(ws) + n) == PickAt(ws, n)
    ensures forall i :: 0 <= i < |ws| ==> CountsAfter(ws, Sum(ws) + n)[i] == CountsAfter(ws, n)[i] + ws[i]
  {
    CountsRoundLater(ws, n);
    PickIgnoresWholeRounds(ws, CountsAfter(ws, n), CountsAfter(ws, Sum(ws) + n), |ws|);
  }

  // ---------- entries of weight zero

  lemma {:induction false} NotANumberIsPassedOver(ws: seq<int>, cs: seq<nat>, n: nat, j: nat)
    requires 0 < n <= |ws| == |cs| && 0 < j < |ws| && ws[j] == 0 && cs[j] == 0
    ensures PickIndex(ws, cs, n) != j
  {
    if n > 1 { NotANumberIsPassedOver(ws, cs, n - 1, j); }
  }

  lemma {:induction false} InfiniteIsPassedOver(ws: seq<int>, cs: seq<nat>, n: nat, k: nat)
    requires 0 < k < n <= |ws| == |cs| && ws[0] == 0 && cs[0] > 0 && ws[k] != 0
    ensures PickIndex(ws, cs, n) != 0
  {
    if k < n - 1 { InfiniteIsPassedOver(ws, cs, n - 1, k); }
  }

  /** An entry of weight zero is never picked, except that the first entry gets the first pick. */
  lemma {:induction false} ZeroWeightIsStarved(ws: seq<int>, n: nat, j: nat, k: nat)
    requires j < |ws| && k < |ws| && ws[j] == 0 && ws[k] != 0
    ensures CountsAfter(ws, n)[j] == if j == 0 && n > 0 then 1 else 0
  {
    if n > 0 {
      ZeroWeightIsStarved(ws, n - 1, j, k);
      var cs := CountsAfter(ws, n - 1);
      if j > 0 {
        NotANumberIsPassedOver(ws, cs, |ws|, j);
      } else if n > 1 {
        InfiniteIsPassedOver(ws, cs, |ws|, k);
      } else {
        NotANumberIsKept(ws, cs, |ws|);
      }
    }
  }

  lemma {:induction false} NotANumberIsKept(ws: seq<int>, cs: seq<nat>, n: nat)
    requires 0 < n <= |ws| == |cs| && ws[0] == 0 && cs[0] == 0
    ensures PickIndex(ws, cs, n) == 0
  {
    if n > 1 { NotANumberIsKept(ws, cs, n - 1); }
  }

  // ---------- the selector

  function Weights(list: seq<(string, int)>): (ws: seq<int>)
    ensures |ws| == |list| && forall i :: 0 <= i < |list| ==> ws[i] == list[i].1
  {
    seq(|list|, i requires 0 <= i < |list| => list[i].1)
  }

  class WeightedSelector {
    const list: seq<(string, int)>
    var counts: seq<nat>
    /** How many selections have been made. */
    ghost var Selected: nat

    /** With one entry, the counts are not kept. */
    ghost predicate Valid()
      reads this
    {
      |counts| == |list| && (|list| > 1 ==> counts == CountsAfter(Weights(list), Selected))
    }

    constructor (entries: seq<(string, int)>)
      ensures Valid() && list == entries && Selected == 0
    {
      list, counts, Selected := entries, seq(|entries|, _ => 0), 0;
    }

    /** Selects the next entry of the schedule; the empty name when there are no entries. */
    method Select() returns (name: string)
      requires Valid()
      modifies this
      ensures Valid() && Selected == old(Selected) + 1
      ensures name == if list == [] then "" else list[PickAt(Weights(list), old(Selected))].0
    {
      if |list| > 1 {
        name := SelectLeast();
      } else {
        Selected := Selected + 1;
        name := if |list| == 0 then "" else list[0].0;
      }
    }

    method SelectLeast() returns (name: string)
      requires Valid() && |list| > 1
      modifies this
      ensures Valid() && Selected == old(Selected) + 1
      ensures name == list[PickAt(Weights(list), old(Selected))].0
    {
      var min := LeastScore();
      CountsStep(Weights(list), Selected);
      counts, Selected := counts[min := counts[min] + 1], Selected + 1;
      name := list[min].0;
    }

    /** The scan of Select. */
    method LeastScore() returns (min: nat)
      requires |counts| == |list| > 0
      ensures min == PickIndex(Weights(list), counts, |list|)
    {
      min := 0;
      var minScore := ScoreOf(counts[0], list[0].1);
      for i := 1 to |list|
        invariant min < i && min == PickIndex(Weights(list), counts, i)
        invariant minScore == ScoreOf(counts[min], list[min].1)
      {
        var s := ScoreOf(counts[i], list[i].1);
        if Less(s, minScore) {
          min, minScore := i, s;
        }
      }
    }
  }
}
