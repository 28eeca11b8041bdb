/** Why merging the two lightest trees is optimal: a lower bound on the cost of every code
    that satisfies Kraft's inequality, and Kraft's inequality for every prefix-free code. */
module HuffmanOptimality {
  import opened Bytes

  // ----- weights and lengths -------------------------------------------------------------------------------------

  predicate Sorted(ws: seq<nat>)
  {
    forall i, j :: 0 <= i < j < |ws| ==> ws[i] <= ws[j]
  }

  function Dot(ws: seq<nat>, ls: seq<nat>): nat
    requires |ws| == |ls|
  {
    if ws == [] then 0 else ws[0] * ls[0] + Dot(ws[1..], ls[1..])
  }

  predicate AtMost(ls: seq<nat>, m: nat)
  {
    forall i :: 0 <= i < |ls| ==> ls[i] <= m
  }

  /** The Kraft sum of the lengths, scaled by 2^m. */
  function Kraft(ls: seq<nat>, m: nat): nat
    requires AtMost(ls, m)
  {
    if ls == [] then 0 else Pow2(m - ls[0]) + Kraft(ls[1..], m)
  }

  /** Where the queue puts a weight x: before a heavier head; otherwise behind the head,
      before the next weight that is not lighter. */
  function InsertPos(ws: seq<nat>, x: nat): (k: nat)
    ensures k <= |ws|
  {
    if ws == [] || ws[0] > x then 0 else FirstNotLighter(ws, x, 1)
  }

  function FirstNotLighter(ws: seq<nat>, x: nat, start: nat): (k: nat)
    requires start <= |ws|
    ensures start <= k <= |ws|
    ensures forall i :: start <= i < k ==> ws[i] < x
    ensures k < |ws| ==> x <= ws[k]
    decreases |ws| - start
  {
    if start == |ws| || ws[start] >= x then start else FirstNotLighter(ws, x, start + 1)
  }

  /** What stands before the position is at most x, what stands behind it at least x. */
  lemma InsertPosSplits(ws: seq<nat>, x: nat)
    requires Sorted(ws)
    ensures var k := InsertPos(ws, x);
            (forall h :: 0 <= h < k ==> ws[h] <= x) && forall h :: k <= h < |ws| ==> x <= ws[h]
  {
    var k := InsertPos(ws, x);
    assert k < |ws| ==> x <= ws[k];
  }

  lemma InsertKeepsSorted(ws: seq<nat>, x: nat)
    requires Sorted(ws)
    ensures Sorted(InsertAt(ws, InsertPos(ws, x), x))
  {
    hide InsertPos;
    InsertPosSplits(ws, x);
  }

  function InsertAt<T>(xs: seq<T>, k: nat, x: T): seq<T>
    requires k <= |xs|
  {
    xs[..k] + [x] + xs[k..]
  }

  /** Total cost of repeatedly merging the two heads: the sum of all merged weights. */
  function MergeCost(ws: seq<nat>): nat
    decreases |ws|
  {
    if |ws| <= 1 then 0
    else
      var s := ws[0] + ws[1];
      s + MergeCost(InsertAt(ws[2..], InsertPos(ws[2..], s), s))
  }

  // ----- algebra of Dot and Kraft --------------------------------------------------------------------------------

  lemma {:induction false} DotAppend(ws: seq<nat>, ws': seq<nat>, ls: seq<nat>, ls': seq<nat>)
    requires |ws| == |ls| && |ws'| == |ls'|
    ensures Dot(ws + ws', ls + ls') == Dot(ws, ls) + Dot(ws', ls')
  {
    if ws == [] {
      assert ws + ws' == ws' && ls + ls' == ls';
    } else {
      assert (ws + ws')[1..] == ws[1..] + ws' && (ls + ls')[1..] == ls[1..] + ls';
      DotAppend(ws[1..], ws', ls[1..], ls');
    }
  }

  lemma {:induction false} KraftAppend(ls: seq<nat>, ls': seq<nat>, m: nat)
    requires AtMost(ls, m)
    requires AtMost(ls', m)
    ensures AtMost(ls + ls', m)
    ensures Kraft(ls + ls', m) == Kraft(ls, m) + Kraft(ls', m)
  {
    if ls == [] {
      assert ls + ls' == ls';
    } else {
      assert (ls + ls')[1..] == ls[1..] + ls';
      KraftAppend(ls[1..], ls', m);
    }
  }

  lemma SplitAt<T>(xs: seq<T>, i: nat, v: T)
    requires i < |xs|
    ensures xs == xs[..i] + ([xs[i]] + xs[i + 1..])
    ensures xs[i := v] == xs[..i] + ([v] + xs[i + 1..])
  {
  }

  lemma DotUpdate(ws: seq<nat>, ls: seq<nat>, i: nat, v: nat)
    requires |ws| == |ls| && i < |ls|
    ensures Dot(ws, ls[i := v]) == Dot(ws, ls) - ws[i] * ls[i] + ws[i] * v
  {
    hide Dot;
    SplitAt(ws, i, ws[i]);
    SplitAt(ls, i, v);
    DotAppend(ws[..i], [ws[i]] + ws[i + 1..], ls[..i], [ls[i]] + ls[i + 1..]);
    DotAppend(ws[..i], [ws[i]] + ws[i + 1..], ls[..i], [v] + ls[i + 1..]);
    DotAppend([ws[i]], ws[i + 1..], [ls[i]], ls[i + 1..]);
    DotAppend([ws[i]], ws[i + 1..], [v], ls[i + 1..]);
    DotOne(ws[i], ls[i]);
    DotOne(ws[i], v);
  }

  lemma KraftEmpty(m: nat)
    ensures Kraft([], m) == 0 && (m > 0 ==> Kraft([], m - 1) == 0)
  {
  }

  lemma KraftOne(l: nat, m: nat)
    requires l <= m
    ensures Kraft([l], m) == Pow2(m - l)
  {
  }

  lemma KraftUpdate(ls: seq<nat>, i: nat, v: nat, m: nat)
    requires i < |ls| && v <= m
    requires AtMost(ls, m)
    ensures AtMost(ls[i := v], m)
    ensures Kraft(ls[i := v], m) == Kraft(ls, m) - Pow2(m - ls[i]) + Pow2(m - v)
  {
    hide Kraft, Pow2;
    SplitAt(ls, i, v);
    KraftOne(ls[i], m);
    KraftOne(v, m);
    KraftAppend([ls[i]], ls[i + 1..], m);
    KraftAppend([v], ls[i + 1..], m);
    KraftAppend(ls[..i], [ls[i]] + ls[i + 1..], m);
    KraftAppend(ls[..i], [v] + ls[i + 1..], m);
  }

  // ----- the exchange argument -----------------------------------------------------------------------------------

  ghost predicate Admissible(ls: seq<nat>, m: nat)
  {
    && AtMost(ls, m)
    && Kraft(ls, m) <= Pow2(m)
  }

  function Swap(ls: seq<nat>, i: nat, j: nat): seq<nat>
    requires i < |ls| && j < |ls|
  {
    ls[i := ls[j]][j := ls[i]]
  }

  /** Giving the lighter weight the longer length never costs more. */
  lemma SwapCheaper(ws: seq<nat>, ls: seq<nat>, i: nat, j: nat, m: nat)
    requires |ws| == |ls| && i < |ls| && j < |ls|
    requires Admissible(ls, m)
    requires ws[i] <= ws[j] && ls[i] <= ls[j]
    ensures Admissible(Swap(ls, i, j), m)
    ensures Dot(ws, Swap(ls, i, j)) <= Dot(ws, ls)
  {
    if i == j {
      assert Swap(ls, i, j) == ls;
    } else {
      SwapKraft(ls, i, j, m);
      var a := ls[i := ls[j]];
      DotUpdate(ws, ls, i, ls[j]);
      DotUpdate(ws, a, j, ls[i]);
      CrossProducts(ws[i], ws[j], ls[i], ls[j]);
    }
  }

  lemma SwapKraft(ls: seq<nat>, i: nat, j: nat, m: nat)
    requires i < |ls| && j < |ls| && AtMost(ls, m)
    ensures AtMost(Swap(ls, i, j), m)
    ensures Kraft(Swap(ls, i, j), m) == Kraft(ls, m)
  {
    KraftUpdate(ls, i, ls[j], m);
    KraftUpdate(ls[i := ls[j]], j, ls[i], m);
    if i == j { assert Swap(ls, i, j) == ls; }
  }

  lemma CrossProducts(w: nat, w': nat, l: nat, l': nat)
    requires w <= w' && l <= l'
    ensures w * l' + w' * l <= w * l + w' * l'
  {
    assert (w' - w) * (l' - l) >= 0;
  }

  lemma {:induction false} LongestIndex(ls: seq<nat>, lo: nat) returns (k: nat)
    requires lo < |ls|
    ensures lo <= k < |ls|
    ensures forall i :: lo <= i < |ls| ==> ls[i] <= ls[k]
    decreases |ls| - lo
  {
    k := lo;
    if lo + 1 < |ls| {
      var r := LongestIndex(ls, lo + 1);
      if ls[lo] < ls[r] { k := r; }
    }
  }

  lemma {:induction false} Pow2Even(n: nat)
    requires n > 0
    ensures Pow2(n) % 2 == 0
  {
  }

  /** Lengths below m contribute even amounts. */
  lemma {:induction false} KraftEven(ls: seq<nat>, m: nat)
    requires m > 0 && AtMost(ls, m - 1)
    ensures Kraft(ls, m) % 2 == 0
  {
    if ls != [] {
      Pow2Even(m - ls[0]);
      KraftEven(ls[1..], m);
    }
  }

  /** Rescaling: all lengths at most m' <= m. */
  lemma {:induction false} KraftRescale(ls: seq<nat>, m': nat, m: nat)
    requires m' <= m
    requires AtMost(ls, m')
    ensures Kraft(ls, m) == Kraft(ls, m') * Pow2(m - m')
  {
    if ls != [] {
      KraftRescale(ls[1..], m', m);
      Pow2Add(m' - ls[0], m - m');
      Distribute(Pow2(m' - ls[0]), Kraft(ls[1..], m'), Pow2(m - m'));
    }
  }

  lemma AdmissibleAt(ls: seq<nat>, m': nat, m: nat)
    requires m' <= m
    requires AtMost(ls, m')
    requires Admissible(ls, m)
    ensures Admissible(ls, m')
  {
    KraftRescale(ls, m', m);
    Pow2Add(m', m - m');
    CancelFactor(Kraft(ls, m'), Pow2(m'), Pow2(m - m'));
  }

  /** A longest code with no partner of the same length can lose a bit. */
  lemma ShortenLongest(ls: seq<nat>, m: nat)
    requires |ls| >= 2 && Admissible(ls, m) && ls[0] >= 1
    requires forall i :: 1 <= i < |ls| ==> ls[i] < ls[0]
    ensures Admissible(ls[0 := ls[0] - 1], m)
  {
    var top := ls[0];
    AdmissibleAt(ls, top, m);
    OddKraft(ls);
    var ls' := ls[0 := top - 1];
    KraftUpdate(ls, 0, top - 1, top);
    assert Pow2(1) == 2 && Pow2(0) == 1;
    KraftRescale(ls', top, m);
    Pow2Add(top, m - top);
    CancelFactor(Kraft(ls', top), Pow2(top), Pow2(m - top));
  }

  lemma OddKraft(ls: seq<nat>)
    requires |ls| >= 1 && ls[0] >= 1
    requires forall i :: 1 <= i < |ls| ==> ls[i] < ls[0]
    requires Admissible(ls, ls[0])
    ensures Kraft(ls, ls[0]) < Pow2(ls[0])
  {
    hide Kraft, Pow2;
    KraftEven(ls[1..], ls[0]);
    Pow2Even(ls[0]);
    KraftHead(ls, ls[0]);
    OddBelowEven(Kraft(ls[1..], ls[0]), Pow2(ls[0]));
  }

  lemma KraftHead(ls: seq<nat>, m: nat)
    requires ls != [] && ls[0] == m && AtMost(ls, m)
    ensures Kraft(ls, m) == 1 + Kraft(ls[1..], m)
  {
  }

  lemma OddBelowEven(a: nat, b: nat)
    requires a % 2 == 0 && b % 2 == 0 && 1 + a <= b
    ensures 1 + a < b
  {
  }

  /** Some admissible lengths are no more expensive and give the two lightest weights the
      same, greatest length. */
  lemma {:induction false} Normalise(ws: seq<nat>, ls: seq<nat>, m: nat) returns (ns: seq<nat>)
    requires |ws| == |ls| >= 2 && Sorted(ws) && Admissible(ls, m)
    ensures |ns| == |ls| && Admissible(ns, m)
    ensures Dot(ws, ns) <= Dot(ws, ls)
    ensures ns[0] == ns[1] >= 1
    decreases Sum(ls)
  {
    var b := TwoLongestFirst(ws, ls, m);
    if b[0] == b[1] {
      ns := b;
      if b[0] == 0 { TwoEmptyCodes(b, m); }
    } else {
      ShortenLongest(b, m);
      ShorterIsCheaper(ws, b);
      ns := Normalise(ws, b[0 := b[0] - 1], m);
    }
  }

  lemma ShorterIsCheaper(ws: seq<nat>, ls: seq<nat>)
    requires |ws| == |ls| >= 1 && ls[0] >= 1
    ensures Dot(ws, ls[0 := ls[0] - 1]) <= Dot(ws, ls)
    ensures 0 <= Sum(ls[0 := ls[0] - 1]) < Sum(ls)
  {
    var l := ls[0];
    DotUpdate(ws, ls, 0, l - 1);
    MulMono(l - 1, l, ws[0]);
    SumUpdate(ls, 0, l - 1);
    SumNonNegative(ls[0 := l - 1]);
  }

  lemma TwoLongestFirst(ws: seq<nat>, ls: seq<nat>, m: nat) returns (b: seq<nat>)
    requires |ws| == |ls| >= 2 && Sorted(ws) && Admissible(ls, m)
    ensures |b| == |ls| && Admissible(b, m)
    ensures Dot(ws, b) <= Dot(ws, ls) && Sum(b) == Sum(ls)
    ensures b[1] <= b[0] && forall i :: 2 <= i < |b| ==> b[i] <= b[1]
  {
    var i := LongestIndex(ls, 0);
    SwapCheaper(ws, ls, 0, i, m);
    SwapSum(ls, 0, i);
    var a := Swap(ls, 0, i);
    var j := LongestIndex(a, 1);
    SwapCheaper(ws, a, 1, j, m);
    SwapSum(a, 1, j);
    b := Swap(a, 1, j);
  }

  lemma SwapSum(ls: seq<nat>, i: nat, j: nat)
    requires i < |ls| && j < |ls|
    ensures Sum(Swap(ls, i, j)) == Sum(ls)
  {
    SumUpdate(ls, i, ls[j]);
    SumUpdate(ls[i := ls[j]], j, ls[i]);
    if i == j { assert Swap(ls, i, j) == ls; }
  }

  lemma {:induction false} SumNonNegative(ls: seq<nat>)
    ensures Sum(ls) >= 0
  {
    if ls != [] { SumNonNegative(ls[1..]); }
  }

  lemma TwoEmptyCodes(ls: seq<nat>, m: nat)
    requires |ls| >= 2 && ls[0] == ls[1] == 0
    requires AtMost(ls, m)
    ensures !Admissible(ls, m)
  {
    assert ls == [0] + ([0] + ls[2..]);
    KraftAppend([0], ls[2..], m);
    KraftAppend([0], [0] + ls[2..], m);
    assert [0][1..] == [];
    assert Kraft([0], m) == Pow2(m);
  }

  /** Optimality on lists: merging the two lightest costs no more than any lengths that
      satisfy Kraft's inequality. */
  lemma {:induction false} MergeCostIsLeast(ws: seq<nat>, ls: seq<nat>, m: nat)
    requires |ws| == |ls| && Sorted(ws) && Admissible(ls, m)
    ensures MergeCost(ws) <= Dot(ws, ls)
    decreases |ws|
  {
    hide Kraft, Dot, InsertPos;
    if |ws| >= 2 {
      var ns := Normalise(ws, ls, m);
      var s, rest := ws[0] + ws[1], ws[2..];
      var k := InsertPos(rest, s);
      var ws' := InsertAt(rest, k, s);
      MergeCostUnfold(ws, ws');
      assert Sorted(rest);
      InsertKeepsSorted(rest, s);
      MergedKraft(ns, k, m);
      MergeCostIsLeast(ws', InsertAt(ns[2..], k, ns[0] - 1), m);
      MergedDot(ws, ns, k);
    }
  }

  lemma MergeCostUnfold(ws: seq<nat>, ws': seq<nat>)
    requires |ws| >= 2
    requires ws' == InsertAt(ws[2..], InsertPos(ws[2..], ws[0] + ws[1]), ws[0] + ws[1])
    ensures MergeCost(ws) == ws[0] + ws[1] + MergeCost(ws')
  {
  }

  lemma MergedDot(ws: seq<nat>, ns: seq<nat>, k: nat)
    requires |ws| == |ns| >= 2 && k <= |ws| - 2 && ns[0] == ns[1] >= 1
    ensures Dot(InsertAt(ws[2..], k, ws[0] + ws[1]), InsertAt(ns[2..], k, ns[0] - 1)) + ws[0] + ws[1]
         == Dot(ws, ns)
  {
    hide Dot, InsertAt;
    var w, l, s, t := ws[2..], ns[2..], ws[0] + ws[1], ns[0] - 1;
    DotInsertAt(w, l, k, s, t);
    assert ws == [ws[0]] + ([ws[1]] + w) && ns == [ns[0]] + ([ns[1]] + l);
    DotCons(ws[0], ns[0], [ws[1]] + w, [ns[1]] + l);
    DotCons(ws[1], ns[1], w, l);
    assert s * t + s == s * ns[0];
    assert s * ns[0] == ws[0] * ns[0] + ws[1] * ns[0];
  }

  lemma DotCons(w: nat, l: nat, ws: seq<nat>, ls: seq<nat>)
    requires |ws| == |ls|
    ensures Dot([w] + ws, [l] + ls) == w * l + Dot(ws, ls)
  {
    assert ([w] + ws)[1..] == ws && ([l] + ls)[1..] == ls;
  }

  lemma DotInsertAt(ws: seq<nat>, ls: seq<nat>, k: nat, w: nat, l: nat)
    requires |ws| == |ls| && k <= |ws|
    ensures Dot(InsertAt(ws, k, w), InsertAt(ls, k, l)) == Dot(ws, ls) + w * l
  {
    hide Dot;
    DotAppend(ws[..k] + [w], ws[k..], ls[..k] + [l], ls[k..]);
    DotAppend(ws[..k], [w], ls[..k], [l]);
    DotOne(w, l);
    assert ws == ws[..k] + ws[k..] && ls == ls[..k] + ls[k..];
    DotAppend(ws[..k], ws[k..], ls[..k], ls[k..]);
  }

  lemma DotOne(w: nat, l: nat)
    ensures Dot([w], [l]) == w * l
  {
  }

  lemma MergedKraft(ns: seq<nat>, k: nat, m: nat)
    requires |ns| >= 2 && k <= |ns| - 2 && ns[0] == ns[1] >= 1
    requires Admissible(ns, m)
    ensures Admissible(InsertAt(ns[2..], k, ns[0] - 1), m)
  {
    hide Kraft;
    var l, t := ns[2..], ns[0] - 1;
    KraftAppend(l[..k], [t], m);
    KraftAppend(l[..k] + [t], l[k..], m);
    assert l == l[..k] + l[k..];
    KraftAppend(l[..k], l[k..], m);
    KraftOne(t, m);
    KraftOne(ns[0], m);
    assert ns == [ns[0]] + ([ns[0]] + l);
    KraftAppend([ns[0]], l, m);
    KraftAppend([ns[0]], [ns[0]] + l, m);
    assert Pow2(m - t) == 2 * Pow2(m - ns[0]);
  }

  // ----- Kraft's inequality for prefix-free codes ----------------------------------------------------------------

  predicate IsPrefix(a: seq<bool>, b: seq<bool>)
  {
    |a| <= |b| && b[..|a|] == a
  }

  predicate Comparable(a: seq<bool>, b: seq<bool>)
  {
    IsPrefix(a, b) || IsPrefix(b, a)
  }

  predicate PrefixFree(codes: seq<seq<bool>>)
  {
    forall i, j :: 0 <= i < j < |codes| ==> !Comparable(codes[i], codes[j])
  }

  function Lengths(codes: seq<seq<bool>>): (ls: seq<nat>)
    ensures |ls| == |codes| && forall i :: 0 <= i < |ls| ==> ls[i] == |codes[i]|
  {
    seq(|codes|, i requires 0 <= i < |codes| => |codes[i]|)
  }

  predicate NonEmptyCodes(codes: seq<seq<bool>>)
  {
    forall i :: 0 <= i < |codes| ==> codes[i] != []
  }

  /** What follows the first bit b, for the codes that start with it. */
  function Tails(codes: seq<seq<bool>>, b: bool): (ts: seq<seq<bool>>)
    requires NonEmptyCodes(codes)
  {
    if codes == [] then []
    else if codes[0][0] == b then [codes[0][1..]] + Tails(codes[1..], b)
    else Tails(codes[1..], b)
  }

  lemma {:induction false} TailsMember(codes: seq<seq<bool>>, b: bool, t: seq<bool>)
    requires NonEmptyCodes(codes)
    requires t in Tails(codes, b)
    ensures [b] + t in codes
  {
    if codes[0][0] == b && t == codes[0][1..] {
      assert [b] + t == codes[0];
    } else {
      TailsMember(codes[1..], b, t);
    }
  }

  lemma {:induction false} TailsPrefixFree(codes: seq<seq<bool>>, b: bool)
    requires NonEmptyCodes(codes)
    requires PrefixFree(codes)
    ensures PrefixFree(Tails(codes, b))
  {
    if codes != [] {
      assert PrefixFree(codes[1..]);
      TailsPrefixFree(codes[1..], b);
      if codes[0][0] == b {
        var rest := Tails(codes[1..], b);
        forall j | 0 <= j < |rest|
          ensures !Comparable(codes[0][1..], rest[j])
        {
          TailsMember(codes[1..], b, rest[j]);
          var k :| 0 <= k < |codes[1..]| && codes[1..][k] == [b] + rest[j];
          assert !Comparable(codes[0], codes[k + 1]);
          assert codes[0] == [b] + codes[0][1..];
          if Comparable(codes[0][1..], rest[j]) { ConsComparable(b, codes[0][1..], rest[j]); }
        }
      }
    }
  }

  lemma ConsComparable(b: bool, s: seq<bool>, t: seq<bool>)
    requires Comparable(s, t)
    ensures Comparable([b] + s, [b] + t)
  {
    if IsPrefix(s, t) {
      assert ([b] + t)[..|s| + 1] == [b] + t[..|s|];
    } else {
      assert ([b] + s)[..|t| + 1] == [b] + s[..|t|];
    }
  }

  lemma LengthsCons(codes: seq<seq<bool>>, m: nat)
    requires codes != [] && |codes[0]| <= m && AtMost(Lengths(codes[1..]), m)
    ensures AtMost(Lengths(codes), m)
    ensures Kraft(Lengths(codes), m) == Pow2(m - |codes[0]|) + Kraft(Lengths(codes[1..]), m)
  {
    assert Lengths(codes)[1..] == Lengths(codes[1..]);
  }

  lemma {:induction false} TailsKraft(codes: seq<seq<bool>>, m: nat)
    requires m > 0
    requires NonEmptyCodes(codes) && AtMost(Lengths(codes), m)
    ensures forall b :: AtMost(Lengths(Tails(codes, b)), m - 1)
    ensures Kraft(Lengths(codes), m)
         == Kraft(Lengths(Tails(codes, false)), m - 1) + Kraft(Lengths(Tails(codes, true)), m - 1)
  {
    hide Kraft, Pow2;
    KraftEmpty(m);
    if codes != [] {
      TailsKraft(codes[1..], m);
      var c := codes[0];
      LengthsCons(codes, m);
      assert Tails(codes, c[0]) == [c[1..]] + Tails(codes[1..], c[0]) && Tails(codes, !c[0]) == Tails(codes[1..], !c[0]);
      LengthsCons(Tails(codes, c[0]), m - 1);
    }
  }

  /** Kraft's inequality: the codes of a prefix-free set fit. */
  lemma {:induction false} KraftInequality(codes: seq<seq<bool>>, m: nat)
    requires PrefixFree(codes)
    requires AtMost(Lengths(codes), m)
    ensures Admissible(Lengths(codes), m)
    decreases m
  {
    if i :| 0 <= i < |codes| && codes[i] == [] {
      assert i > 0 ==> Comparable(codes[0], codes[i]);
      assert |codes| > 1 ==> i == 0 ==> Comparable(codes[0], codes[1]);
      assert Lengths(codes) == [0] && [0][1..] == [];
    } else if m == 0 {
      assert codes == [];
    } else {
      TailsKraft(codes, m);
      TailsPrefixFree(codes, false);
      TailsPrefixFree(codes, true);
      KraftInequality(Tails(codes, false), m - 1);
      KraftInequality(Tails(codes, true), m - 1);
    }
  }
}
