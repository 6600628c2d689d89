/** `median` and `median_mad_trim` of the NTP pool, over reordered arrays. */
module RobustMedian {
  import opened Words

  // ----- counting -----

  function Count(s: seq<int>, p: int -> bool): (c: nat)
    ensures c <= |s|
  {
    if s == [] then 0 else (if p(s[0]) then 1 else 0) + Count(s[1..], p)
  }

  lemma {:induction false} CountConcat(s: seq<int>, t: seq<int>, p: int -> bool)
    ensures Count(s + t, p) == Count(s, p) + Count(t, p)
  {
    if s == [] {
      assert s + t == t;
    } else {
      CountConcat(s[1..], t, p);
      assert (s + t)[0] == s[0] && (s + t)[1..] == s[1..] + t;
    }
  }

  lemma {:induction false} CountGrows(s: seq<int>, p: int -> bool, q: int -> bool)
    requires forall i :: 0 <= i < |s| && p(s[i]) ==> q(s[i])
    ensures Count(s, p) <= Count(s, q)
  {
    if s != [] {
      CountGrows(s[1..], p, q);
    }
  }

  /** Values have one of two exclusive properties. */
  lemma {:induction false} CountDisjoint(s: seq<int>, p: int -> bool, q: int -> bool)
    requires forall i :: 0 <= i < |s| ==> !(p(s[i]) && q(s[i]))
    ensures Count(s, p) + Count(s, q) <= |s|
  {
    if s != [] {
      CountDisjoint(s[1..], p, q);
    }
  }

  lemma {:induction false} CountAll(s: seq<int>, p: int -> bool)
    requires forall i :: 0 <= i < |s| ==> p(s[i])
    ensures Count(s, p) == |s|
  {
    if s != [] {
      CountAll(s[1..], p);
    }
  }

  lemma {:induction false} CountNone(s: seq<int>, p: int -> bool)
    requires forall i :: 0 <= i < |s| ==> !p(s[i])
    ensures Count(s, p) == 0
  {
    if s != [] {
      CountNone(s[1..], p);
    }
  }

  lemma {:induction false} CountPermuted(s: seq<int>, t: seq<int>, p: int -> bool)
    requires multiset(s) == multiset(t)
    ensures Count(s, p) == Count(t, p)
  {
    if s == [] {
      NoneLeft(t);
    } else {
      assert s == [s[0]] + s[1..];
      assert s[0] in multiset(t);
      var k :| 0 <= k < |t| && t[k] == s[0];
      CountWithout(t, k, p);
      CountPermuted(s[1..], t[..k] + t[k + 1..], p);
    }
  }

  lemma NoneLeft(t: seq<int>)
    requires multiset(t) == multiset{}
    ensures t == []
  {
    assert |multiset(t)| == |t|;
  }

  /** Taking the element at `k` out. */
  lemma {:induction false} CountWithout(t: seq<int>, k: nat, p: int -> bool)
    requires k < |t|
    ensures Count(t, p) == Count(t[..k] + t[k + 1..], p) + if p(t[k]) then 1 else 0
    ensures multiset(t[..k] + t[k + 1..]) == multiset(t) - multiset{t[k]}
  {
    WithoutMultiset(t, k);
    if k == 0 {
      assert t[..k] + t[k + 1..] == t[1..];
    } else {
      CountWithout(t[1..], k - 1, p);
      WithoutTail(t, k);
    }
  }

  lemma WithoutMultiset(t: seq<int>, k: nat)
    requires k < |t|
    ensures multiset(t[..k] + t[k + 1..]) == multiset(t) - multiset{t[k]}
  {
    assert t == t[..k] + [t[k]] + t[k + 1..];
  }

  lemma WithoutTail(t: seq<int>, k: nat)
    requires 0 < k < |t|
    ensures var r := t[..k] + t[k + 1..];
      r != [] && r[0] == t[0] && r[1..] == t[1..][..k - 1] + t[1..][k - 1 + 1..] && t[1..][k - 1] == t[k]
  {
  }

  // ----- ranks and medians -----

  function Below(v: int): int -> bool { (x: int) => x < v }

  function UpTo(v: int): int -> bool { (x: int) => x <= v }

  function Within(a: int, b: int): int -> bool { (x: int) => a <= x <= b }

  /** In increasing order, `v` would stand at position `k`. */
  predicate HasRank(s: seq<int>, k: nat, v: int) {
    Count(s, Below(v)) <= k < Count(s, UpTo(v))
  }

  /** The two middle values of an even number of values. */
  predicate IsMiddle(s: seq<int>, lo: int, hi: int) {
    |s| >= 2 && HasRank(s, |s| / 2 - 1, lo) && HasRank(s, |s| / 2, hi)
  }

  /** The middle value, or the truncated mean of the two middle values. */
  ghost predicate IsMedian(s: seq<int>, m: int) {
    if |s| % 2 == 1 then HasRank(s, |s| / 2, m)
    else exists lo, hi :: IsMiddle(s, lo, hi) && m == TruncDiv(lo + hi, 2)
  }

  lemma RankIsUnique(s: seq<int>, k: nat, v: int, w: int)
    requires HasRank(s, k, v) && HasRank(s, k, w)
    ensures v == w
  {
    if v < w {
      CountGrows(s, UpTo(v), Below(w));
    } else if w < v {
      CountGrows(s, UpTo(w), Below(v));
    }
  }

  lemma MedianIsUnique(s: seq<int>, m: int, n: int)
    requires IsMedian(s, m) && IsMedian(s, n)
    ensures m == n
  {
    hide HasRank, TruncDiv;
    if |s| % 2 == 1 {
      RankIsUnique(s, |s| / 2, m, n);
    } else {
      var lo, hi :| IsMiddle(s, lo, hi) && m == TruncDiv(lo + hi, 2);
      var lo', hi' :| IsMiddle(s, lo', hi') && n == TruncDiv(lo' + hi', 2);
      RankIsUnique(s, |s| / 2 - 1, lo, lo');
      RankIsUnique(s, |s| / 2, hi, hi');
    }
  }

  lemma MedianOfPermutation(s: seq<int>, t: seq<int>, m: int)
    requires multiset(s) == multiset(t) && IsMedian(s, m)
    ensures IsMedian(t, m)
  {
    assert |s| == |multiset(s)| == |multiset(t)| == |t|;
    forall k: nat, v
      ensures HasRank(s, k, v) <==> HasRank(t, k, v)
    {
      CountPermuted(s, t, Below(v));
      CountPermuted(s, t, UpTo(v));
    }
    hide HasRank;
    MedianFromRanks(s, t, m);
  }

  lemma MedianFromRanks(s: seq<int>, t: seq<int>, m: int)
    requires |s| == |t| && IsMedian(s, m) && forall k: nat, v :: HasRank(s, k, v) <==> HasRank(t, k, v)
    ensures IsMedian(t, m)
  {
    hide HasRank, TruncDiv;
    if |s| % 2 == 0 {
      var lo, hi :| IsMiddle(s, lo, hi) && m == TruncDiv(lo + hi, 2);
      assert IsMiddle(t, lo, hi);
    }
  }

  function Negated(s: seq<int>): (r: seq<int>)
    ensures |r| == |s| && forall i :: 0 <= i < |s| ==> r[i] == -s[i]
  {
    seq(|s|, i requires 0 <= i < |s| => -s[i])
  }

  lemma {:induction false} CountNegated(s: seq<int>, p: int -> bool, q: int -> bool)
    requires forall i :: 0 <= i < |s| ==> (p(-s[i]) <==> !q(s[i]))
    ensures Count(Negated(s), p) == |s| - Count(s, q)
  {
    if s != [] {
      CountNegated(s[1..], p, q);
      assert Negated(s)[1..] == Negated(s[1..]);
    }
  }

  lemma RankNegated(s: seq<int>, k: nat, v: int)
    requires HasRank(s, k, v) && k < |s|
    ensures HasRank(Negated(s), |s| - 1 - k, -v)
  {
    CountNegated(s, Below(-v), UpTo(v));
    CountNegated(s, UpTo(-v), Below(v));
  }

  /** Up and down are alike: the median of the negated values is the negated median. */
  lemma MedianNegated(s: seq<int>, m: int)
    requires s != [] && IsMedian(s, m)
    ensures IsMedian(Negated(s), -m)
  {
    hide HasRank;
    if |s| % 2 == 1 {
      RankNegated(s, |s| / 2, m);
    } else {
      var lo, hi :| IsMiddle(s, lo, hi) && m == TruncDiv(lo + hi, 2);
      RankNegated(s, |s| / 2 - 1, lo);
      RankNegated(s, |s| / 2, hi);
      assert IsMiddle(Negated(s), -hi, -lo) && -m == TruncDiv(-hi + -lo, 2);
    }
  }

  /** Of an even number of values it is half way between the two middle ones, up to the lost half. */
  lemma MedianHalfWay(s: seq<int>, m: int, lo: int, hi: int)
    requires |s| % 2 == 0 && IsMedian(s, m) && IsMiddle(s, lo, hi)
    ensures -1 <= lo + hi - 2 * m <= 1
  {
    hide HasRank;
    var lo', hi' :| IsMiddle(s, lo', hi') && m == TruncDiv(lo' + hi', 2);
    RankIsUnique(s, |s| / 2 - 1, lo, lo');
    RankIsUnique(s, |s| / 2, hi, hi');
  }

  // ----- the code -----

  /** Everything before `k` is at most the value at `k`, everything after it at least. */
  predicate IsSelected(s: seq<int>, k: nat) {
    k < |s| && (forall i :: 0 <= i < k ==> s[i] <= s[k]) && forall i :: k < i < |s| ==> s[k] <= s[i]
  }

  lemma SelectedRank(s: seq<int>, k: nat)
    requires IsSelected(s, k)
    ensures HasRank(s, k, s[k])
  {
    var v := s[k];
    assert s == s[..k] + s[k..] && s == s[..k + 1] + s[k + 1..];
    CountConcat(s[..k], s[k..], Below(v));
    CountNone(s[k..], Below(v));
    CountConcat(s[..k + 1], s[k + 1..], UpTo(v));
    CountAll(s[..k + 1], UpTo(v));
  }

  /** The largest value before a selected position has the rank just below it. */
  lemma LargestBeforeRank(s: seq<int>, k: nat, j: nat)
    requires IsSelected(s, k) && j < k && forall i :: 0 <= i < k ==> s[i] <= s[j]
    ensures HasRank(s, k - 1, s[j])
  {
    var v := s[j];
    assert s == s[..k] + s[k..];
    CountConcat(s[..k], s[k..], Below(v));
    CountNone(s[k..], Below(v));
    CountWithout(s[..k], j, Below(v));
    CountConcat(s[..k], s[k..], UpTo(v));
    CountAll(s[..k], UpTo(v));
  }

  method LeastFrom(a: array<int>, i: nat) returns (least: nat)
    requires i < a.Length
    ensures i <= least < a.Length && forall q :: i <= q < a.Length ==> a[least] <= a[q]
  {
    least := i;
    for j := i + 1 to a.Length
      invariant i <= least < a.Length && forall q :: i <= q < j ==> a[least] <= a[q]
    {
      if a[j] < a[least] { least := j; }
    }
  }

  method Swap(a: array<int>, i: nat, j: nat)
    requires i <= j < a.Length
    modifies a
    ensures multiset(a[..]) == multiset(old(a[..]))
    ensures forall q :: 0 <= q < a.Length ==> a[q] == old(a[if q == i then j else if q == j then i else q])
  {
    a[i], a[j] := a[j], a[i];
  }

  /** Stands for `std::nth_element`: brings the value of rank `k` to position `k` by repeated selection. */
  method NthElement(a: array<int>, k: nat)
    requires k < a.Length
    modifies a
    ensures multiset(a[..]) == multiset(old(a[..])) && IsSelected(a[..], k)
  {
    for i := 0 to k + 1
      invariant multiset(a[..]) == multiset(old(a[..]))
      invariant forall p, q :: 0 <= p < i && p <= q < a.Length ==> a[p] <= a[q]
    {
      var least := LeastFrom(a, i);
      Swap(a, i, least);
    }
  }

  method Median(values: array<int>) returns (m: int)
    requires values.Length > 0
    modifies values
    ensures multiset(values[..]) == multiset(old(values[..]))
    ensures IsMedian(old(values[..]), m)
  {
    var mid := values.Length / 2;
    NthElement(values, mid);
    ghost var s := values[..];
    SelectedRank(s, mid);
    if values.Length % 2 == 1 {
      m := values[mid];
    } else {
      var largest := 0;
      for i := 1 to mid
        invariant 0 <= largest < mid && forall j :: 0 <= j < i ==> values[j] <= values[largest]
      {
        if values[largest] < values[i] { largest := i; }
      }
      m := TruncDiv(values[largest] + values[mid], 2);
      LargestBeforeRank(s, mid, largest);
      assert IsMiddle(s, s[largest], s[mid]);
    }
    MedianOfPermutation(s, old(values[..]), m);
  }

  // ----- trimming by the median absolute deviation -----

  function Deviation(x: int, med: int): (d: nat)
    ensures d == x - med || d == med - x
  {
    if x > med then x - med else med - x
  }

  function Deviations(s: seq<int>, med: int): (d: seq<int>)
    ensures |d| == |s| && forall i :: 0 <= i < |s| ==> d[i] == Deviation(s[i], med)
  {
    if s == [] then [] else [Deviation(s[0], med)] + Deviations(s[1..], med)
  }

  function Kept(s: seq<int>, med: int, threshold: int): (r: seq<int>)
    ensures |r| <= |s| && forall i :: 0 <= i < |r| ==> Deviation(r[i], med) <= threshold
  {
    if s == [] then []
    else if Deviation(s[0], med) <= threshold then [s[0]] + Kept(s[1..], med, threshold)
    else Kept(s[1..], med, threshold)
  }

  /** The median of the values within three median absolute deviations of the median, if that deviation is not zero. */
  ghost predicate IsTrimmedBy(s: seq<int>, med: int, mad: int, r: int) {
    IsMedian(s, med) && IsMedian(Deviations(s, med), mad)
    && if mad == 0 then r == med else IsMedian(Kept(s, med, mad * 3), r)
  }

  ghost predicate IsTrimmedMedian(s: seq<int>, r: int) {
    exists med, mad :: IsTrimmedBy(s, med, mad, r)
  }

  function DeviatesSo(med: int, p: int -> bool): int -> bool {
    (x: int) => p(Deviation(x, med))
  }

  function KeptAnd(med: int, threshold: int, p: int -> bool): int -> bool {
    (x: int) => Deviation(x, med) <= threshold && p(x)
  }

  lemma {:induction false} CountDeviations(s: seq<int>, med: int, p: int -> bool)
    ensures Count(Deviations(s, med), p) == Count(s, DeviatesSo(med, p))
  {
    if s != [] {
      CountDeviations(s[1..], med, p);
      assert Deviations(s, med)[1..] == Deviations(s[1..], med);
    }
  }

  lemma {:induction false} CountKept(s: seq<int>, med: int, threshold: int, p: int -> bool)
    ensures Count(Kept(s, med, threshold), p) == Count(s, KeptAnd(med, threshold, p))
  {
    if s != [] {
      CountKept(s[1..], med, threshold, p);
      if Deviation(s[0], med) <= threshold {
        assert Kept(s, med, threshold)[1..] == Kept(s[1..], med, threshold);
      }
    }
  }

  lemma TrimmedOfPermutation(s: seq<int>, t: seq<int>, med: int, mad: int, r: int)
    requires multiset(s) == multiset(t) && IsTrimmedBy(s, med, mad, r)
    ensures IsTrimmedBy(t, med, mad, r)
  {
    MedianOfPermutation(s, t, med);
    DeviationsOfPermutation(s, t, med, mad);
    if mad != 0 { KeptOfPermutation(s, t, med, mad * 3, r); }
  }

  lemma DeviationsOfPermutation(s: seq<int>, t: seq<int>, med: int, m: int)
    requires multiset(s) == multiset(t) && IsMedian(Deviations(s, med), m)
    ensures IsMedian(Deviations(t, med), m)
  {
    assert |s| == |multiset(s)| == |multiset(t)| == |t|;
    var (d, e) := (Deviations(s, med), Deviations(t, med));
    forall k: nat, v
      ensures HasRank(d, k, v) <==> HasRank(e, k, v)
    {
      SameDeviations(s, t, med, Below(v));
      SameDeviations(s, t, med, UpTo(v));
    }
    MedianFromRanks(d, e, m);
  }

  lemma SameDeviations(s: seq<int>, t: seq<int>, med: int, p: int -> bool)
    requires multiset(s) == multiset(t)
    ensures Count(Deviations(s, med), p) == Count(Deviations(t, med), p)
  {
    CountDeviations(s, med, p);
    CountDeviations(t, med, p);
    CountPermuted(s, t, DeviatesSo(med, p));
  }

  lemma SameKept(s: seq<int>, t: seq<int>, med: int, threshold: int, p: int -> bool)
    requires multiset(s) == multiset(t)
    ensures Count(Kept(s, med, threshold), p) == Count(Kept(t, med, threshold), p)
  {
    CountKept(s, med, threshold, p);
    CountKept(t, med, threshold, p);
    CountPermuted(s, t, KeptAnd(med, threshold, p));
  }

  lemma KeptOfPermutation(s: seq<int>, t: seq<int>, med: int, threshold: int, m: int)
    requires multiset(s) == multiset(t) && IsMedian(Kept(s, med, threshold), m)
    ensures IsMedian(Kept(t, med, threshold), m)
  {
    var (d, e) := (Kept(s, med, threshold), Kept(t, med, threshold));
    SameKept(s, t, med, threshold, UpTo(med + threshold));
    CountAll(d, UpTo(med + threshold));
    CountAll(e, UpTo(med + threshold));
    forall k: nat, v
      ensures HasRank(d, k, v) <==> HasRank(e, k, v)
    {
      SameKept(s, t, med, threshold, Below(v));
      SameKept(s, t, med, threshold, UpTo(v));
    }
    hide HasRank, Kept;
    MedianFromRanks(d, e, m);
  }

  method MedianMadTrim(offsets: array<int>) returns (r: int)
    requires offsets.Length > 0
    modifies offsets
    ensures multiset(offsets[..]) == multiset(old(offsets[..]))
    ensures IsTrimmedMedian(old(offsets[..]), r)
  {
    hide Count, HasRank, IsMedian, Deviations, Kept;
    var med := Median(offsets);
    ghost var s := offsets[..];
    MedianOfPermutation(old(offsets[..]), s, med);

    var deviations := new int[offsets.Length];
    for i := 0 to offsets.Length
      invariant offsets[..] == s && forall j :: 0 <= j < i ==> deviations[j] == Deviation(s[j], med)
    {
      deviations[i] := if offsets[i] > med then offsets[i] - med else med - offsets[i];
    }
    assert deviations[..] == Deviations(s, med);

    var mad := Median(deviations);
    if mad == 0 {
      TrimmedOfPermutation(s, old(offsets[..]), med, mad, med);
      return med;
    }

    var threshold := mad * 3;
    var kept: seq<int> := [];
    for i := 0 to offsets.Length
      invariant offsets[..] == s && kept + Kept(s[i..], med, threshold) == Kept(s, med, threshold)
    {
      KeptNext(s, i, med, threshold);
      var deviation := if offsets[i] > med then offsets[i] - med else med - offsets[i];
      if deviation <= threshold { kept := kept + [offsets[i]]; }
    }
    assert kept == Kept(s, med, threshold);
    KeptIsMajority(s, med, mad);
    if |kept| == 0 {
      // The code would return `med` here.
      assert false;
    }
    var values := new int[|kept|](i requires 0 <= i < |kept| => kept[i]);
    assert values[..] == kept;
    r := Median(values);
    TrimmedOfPermutation(s, old(offsets[..]), med, mad, r);
  }

  lemma KeptNext(s: seq<int>, i: nat, med: int, threshold: int)
    requires i < |s|
    ensures Kept(s[i..], med, threshold)
         == if Deviation(s[i], med) <= threshold then [s[i]] + Kept(s[i + 1..], med, threshold) else Kept(s[i + 1..], med, threshold)
  {
    assert s[i..][0] == s[i] && s[i..][1..] == s[i + 1..];
  }

  /** `t` holds exactly the values at most three times `mad` away from `med`, each as often as `s` does. */
  ghost predicate Trims(s: seq<int>, med: int, mad: int, t: seq<int>) {
    forall x :: multiset(t)[x] == if -3 * mad <= x - med <= 3 * mad then multiset(s)[x] else 0
  }

  lemma {:induction false} KeptMultiset(s: seq<int>, med: int, threshold: int, x: int)
    ensures multiset(Kept(s, med, threshold))[x] == if -threshold <= x - med <= threshold then multiset(s)[x] else 0
  {
    if s != [] {
      KeptMultiset(s[1..], med, threshold, x);
      assert s == [s[0]] + s[1..];
    }
  }

  /** A trimmed median is the median of every value within three median absolute deviations of the median, and of no
      other; without any deviation it is the median itself. */
  lemma TrimmedMedianOf(s: seq<int>, r: int)
    requires IsTrimmedMedian(s, r)
    ensures exists med, mad, t ::
              IsMedian(s, med) && IsMedian(Deviations(s, med), mad) && Trims(s, med, mad, t)
              && if mad == 0 then r == med else IsMedian(t, r)
  {
    hide Kept, IsMedian;
    var med, mad :| IsTrimmedBy(s, med, mad, r);
    forall x
      ensures multiset(Kept(s, med, mad * 3))[x] == if -3 * mad <= x - med <= 3 * mad then multiset(s)[x] else 0
    {
      KeptMultiset(s, med, mad * 3, x);
    }
    assert Trims(s, med, mad, Kept(s, med, mad * 3));
  }

  // ----- robustness -----

  lemma TruncatedMean(lo: int, hi: int, a: int, b: int)
    requires a <= lo <= b && a <= hi <= b
    ensures a <= TruncDiv(lo + hi, 2) <= b
  {
  }

  lemma MiddleRankInMajority(s: seq<int>, k: nat, v: int, a: int, b: int)
    requires 2 * Count(s, Within(a, b)) > |s| && HasRank(s, k, v)
    requires |s| <= 2 * k + 2 && 2 * k <= |s| && (|s| % 2 == 1 ==> k == |s| / 2)
    ensures a <= v <= b
  {
    if v < a {
      CountDisjoint(s, UpTo(v), Within(a, b));
    } else if v > b {
      CountGrows(s, Within(a, b), Below(v));
    }
  }

  /** The median lies wherever a strict majority of the values lies. */
  lemma MedianOfMajority(s: seq<int>, m: int, a: int, b: int)
    requires IsMedian(s, m) && 2 * Count(s, Within(a, b)) > |s|
    ensures a <= m <= b
  {
    hide HasRank, TruncDiv;
    if |s| % 2 == 1 {
      MiddleRankInMajority(s, |s| / 2, m, a, b);
    } else {
      var lo, hi :| IsMiddle(s, lo, hi) && m == TruncDiv(lo + hi, 2);
      MiddleRankInMajority(s, |s| / 2 - 1, lo, a, b);
      MiddleRankInMajority(s, |s| / 2, hi, a, b);
      TruncatedMean(lo, hi, a, b);
    }
  }

  /** When the median absolute deviation is not zero, trimming keeps a strict majority: something is always kept. */
  lemma KeptIsMajority(s: seq<int>, med: int, mad: int)
    requires IsMedian(Deviations(s, med), mad) && mad != 0
    ensures 2 * |Kept(s, med, mad * 3)| > |s| && mad > 0
  {
    var d := Deviations(s, med);
    MajorityOfDeviations(d, mad);
    CountDeviations(s, med, UpTo(mad * 3));
    CountKept(s, med, mad * 3, UpTo(med + mad * 3));
    CountGrows(s, DeviatesSo(med, UpTo(mad * 3)), KeptAnd(med, mad * 3, UpTo(med + mad * 3)));
  }

  lemma RankNotNegative(d: seq<int>, k: nat, v: int)
    requires HasRank(d, k, v) && forall i :: 0 <= i < |d| ==> d[i] >= 0
    ensures v >= 0
  {
    if v < 0 { CountNone(d, UpTo(v)); }
  }

  lemma MajorityOfDeviations(d: seq<int>, mad: int)
    requires IsMedian(d, mad) && mad != 0 && forall i :: 0 <= i < |d| ==> d[i] >= 0
    ensures mad > 0 && 2 * Count(d, UpTo(mad * 3)) > |d|
  {
    if |d| % 2 == 1 {
      RankNotNegative(d, |d| / 2, mad);
      CountGrows(d, UpTo(mad), UpTo(mad * 3));
    } else {
      var lo, hi :| IsMiddle(d, lo, hi) && mad == TruncDiv(lo + hi, 2);
      RankNotNegative(d, |d| / 2 - 1, lo);
      RankNotNegative(d, |d| / 2, hi);
      assert hi <= mad * 3;
      CountGrows(d, UpTo(hi), UpTo(mad * 3));
    }
  }

  lemma MajorityDeviatesLittle(s: seq<int>, med: int, a: int, b: int)
    requires a <= med <= b && 2 * Count(s, Within(a, b)) > |s|
    ensures 2 * Count(Deviations(s, med), Within(0, b - a)) > |s|
  {
    CountDeviations(s, med, Within(0, b - a));
    CountGrows(s, Within(a, b), DeviatesSo(med, Within(0, b - a)));
  }

  lemma MedianOfKept(s: seq<int>, med: int, threshold: int, r: int)
    requires IsMedian(Kept(s, med, threshold), r)
    ensures med - threshold <= r <= med + threshold
  {
    var kept := Kept(s, med, threshold);
    CountAll(kept, Within(med - threshold, med + threshold));
    assert |kept| > 0;
    hide Kept, HasRank, Count;
    MedianOfMajority(kept, r, med - threshold, med + threshold);
  }

  /** With a strict majority of the values in [a, b], trimming moves the estimate at most three spans outside. */
  lemma TrimmedMedianOfMajority(s: seq<int>, r: int, a: int, b: int)
    requires IsTrimmedMedian(s, r) && 2 * Count(s, Within(a, b)) > |s|
    ensures a - 3 * (b - a) <= r <= b + 3 * (b - a)
  {
    hide Kept, IsMedian, Count;
    var med, mad :| IsTrimmedBy(s, med, mad, r);
    MedianOfMajority(s, med, a, b);
    MajorityDeviatesLittle(s, med, a, b);
    MedianOfMajority(Deviations(s, med), mad, 0, b - a);
    if mad != 0 { MedianOfKept(s, med, mad * 3, r); }
  }
}
