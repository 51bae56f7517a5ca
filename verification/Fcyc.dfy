/** The K-best timing scheme: a bounded sorted buffer over a stream of measurements. Times are
    reals; the stream stands for the measured function and the cycle counter. */
module Fcyc {
  import opened Bits

  // ---- the samples, sorted

  predicate Sorted(s: seq<real>) {
    forall i, j :: 0 <= i < j < |s| ==> s[i] <= s[j]
  }

  /** x put into s after everything that is not larger. */
  function Insert(s: seq<real>, x: real): seq<real> {
    if s == [] then [x]
    else
      var last := s[|s| - 1];
      if last > x then Insert(s[..|s| - 1], x) + [last] else s + [x]
  }

  function Sort(s: seq<real>): seq<real> {
    if s == [] then [] else Insert(Sort(s[..|s| - 1]), s[|s| - 1])
  }

  /** The k smallest samples, or all of them while there are fewer. */
  function Best(s: seq<real>, k: nat): seq<real> {
    SortLength(s);
    Sort(s)[..Min(|s|, k)]
  }

  lemma {:induction false} InsertContents(s: seq<real>, x: real)
    ensures |Insert(s, x)| == |s| + 1
    ensures multiset(Insert(s, x)) == multiset(s) + multiset{x}
  {
    if s != [] && s[|s| - 1] > x {
      var init, last := s[..|s| - 1], s[|s| - 1];
      assert s == init + [last];
      InsertContents(init, x);
    }
  }

  /** Insertion keeps the order; the last element is the larger of the two candidates. */
  lemma {:induction false} InsertSorted(s: seq<real>, x: real)
    requires Sorted(s)
    ensures |Insert(s, x)| == |s| + 1 && Sorted(Insert(s, x))
    ensures Insert(s, x)[|s|] == if s != [] && s[|s| - 1] > x then s[|s| - 1] else x
  {
    if s != [] && s[|s| - 1] > x {
      InsertSorted(s[..|s| - 1], x);
      AppendSorted(Insert(s[..|s| - 1], x), s[|s| - 1]);
    } else {
      AppendSorted(s, x);
    }
  }

  lemma AppendSorted(s: seq<real>, x: real)
    requires Sorted(s) && (s != [] ==> s[|s| - 1] <= x)
    ensures Sorted(s + [x])
  {
  }

  lemma {:induction false} SortLength(s: seq<real>)
    ensures |Sort(s)| == |s| && Sorted(Sort(s))
  {
    if s != [] {
      SortLength(s[..|s| - 1]);
      InsertSorted(Sort(s[..|s| - 1]), s[|s| - 1]);
    }
  }

  lemma {:induction false} SortContents(s: seq<real>)
    ensures multiset(Sort(s)) == multiset(s)
  {
    if s != [] {
      var init := s[..|s| - 1];
      SortContents(init);
      InsertContents(Sort(init), s[|s| - 1]);
      assert s == init + [s[|s| - 1]];
    }
  }

  ghost predicate AllBelow(kept: seq<real>, rest: seq<real>) {
    forall i, j :: 0 <= i < |kept| && 0 <= j < |rest| ==> kept[i] <= rest[j]
  }

  /** `kept` is sorted and holds min(|s|, k) of the samples, none larger than any sample left out. */
  ghost predicate KeepsSmallest(kept: seq<real>, rest: seq<real>, s: seq<real>, k: nat) {
    && Sorted(kept) && |kept| == Min(|s|, k)
    && multiset(kept) + multiset(rest) == multiset(s)
    && AllBelow(kept, rest)
  }

  lemma BestMeaning(s: seq<real>, k: nat) returns (rest: seq<real>)
    ensures KeepsSmallest(Best(s, k), rest, s, k)
  {
    hide Insert, Sort;
    SortLength(s);
    SortContents(s);
    var m := Min(|s|, k);
    rest := Sort(s)[m..];
    assert Sort(s) == Best(s, k) + rest;
  }

  /** That description leaves no choice. */
  lemma BestUnique(kept: seq<real>, rest: seq<real>, s: seq<real>, k: nat)
    requires KeepsSmallest(kept, rest, s, k)
    ensures kept == Best(s, k)
  {
    SortLength(s);
    SortContents(s);
    SortLength(rest);
    SortContents(rest);
    var whole := kept + Sort(rest);
    forall j | 0 <= j < |Sort(rest)|
      ensures Sort(rest)[j] in multiset(rest)
    {
      assert Sort(rest)[j] in multiset(Sort(rest));
    }
    JoinSorted(kept, rest, Sort(rest));
    SortedUnique(whole, Sort(s));
    assert whole[..|kept|] == kept;
  }

  lemma JoinSorted(kept: seq<real>, rest: seq<real>, sorted: seq<real>)
    requires Sorted(kept) && Sorted(sorted) && AllBelow(kept, rest)
    requires forall j :: 0 <= j < |sorted| ==> sorted[j] in multiset(rest)
    ensures Sorted(kept + sorted)
  {
    forall i, j | 0 <= i < |kept| && 0 <= j < |sorted|
      ensures kept[i] <= sorted[j]
    {
      assert sorted[j] in rest;
    }
  }

  lemma LastIsGreatest(a: seq<real>, x: real)
    requires Sorted(a) && x in multiset(a)
    ensures a != [] && x <= a[|a| - 1]
  {
    assert x in a;
  }

  lemma SameLast(a: seq<real>, b: seq<real>)
    requires Sorted(a) && Sorted(b) && multiset(a) == multiset(b) && a != []
    ensures b != [] && a[|a| - 1] == b[|b| - 1]
  {
    assert a[|a| - 1] in multiset(a);
    LastIsGreatest(b, a[|a| - 1]);
    assert b[|b| - 1] in multiset(b);
    LastIsGreatest(a, b[|b| - 1]);
  }

  /** A sorted sequence is determined by its contents. */
  lemma {:induction false} SortedUnique(a: seq<real>, b: seq<real>)
    requires Sorted(a) && Sorted(b) && multiset(a) == multiset(b)
    ensures a == b
  {
    if a != [] {
      SameLast(a, b);
      var a', b', x := a[..|a| - 1], b[..|b| - 1], a[|a| - 1];
      assert a == a' + [x] && b == b' + [x];
      SameWithoutLast(a', b', x);
      SortedUnique(a', b');
    } else {
      assert |multiset(b)| == |b|;
    }
  }

  lemma SameWithoutLast(a: seq<real>, b: seq<real>, x: real)
    requires multiset(a + [x]) == multiset(b + [x])
    ensures multiset(a) == multiset(b)
  {
    assert multiset(a + [x]) - multiset{x} == multiset(a);
    assert multiset(b + [x]) - multiset{x} == multiset(b);
  }

  // ---- one more sample

  /** A sample at or above the k-th smallest does not change the k smallest. */
  lemma {:induction false} InsertAbove(s: seq<real>, x: real, k: nat)
    requires Sorted(s) && 0 < k <= |s| && x >= s[k - 1]
    ensures |Insert(s, x)| == |s| + 1 && Insert(s, x)[..k] == s[..k]
  {
    InsertSorted(s, x);
    var init, last := s[..|s| - 1], s[|s| - 1];
    if last > x {
      InsertAbove(init, x, k);
      assert init[..k] == s[..k];
    }
  }

  /** A sample below it pushes the k-th smallest out. */
  lemma {:induction false} InsertBelow(s: seq<real>, x: real, k: nat)
    requires Sorted(s) && 0 < k <= |s| && x < s[k - 1]
    ensures |Insert(s, x)| == |s| + 1 && Insert(s, x)[..k] == Insert(s[..k - 1], x)
  {
    InsertSorted(s, x);
    InsertSorted(s[..k - 1], x);
    var init := s[..|s| - 1];
    if |s| > k {
      InsertBelow(init, x, k);
      assert init[..k - 1] == s[..k - 1];
    }
  }

  lemma BestSorted(s: seq<real>, k: nat)
    ensures |Best(s, k)| == Min(|s|, k) && Sorted(Best(s, k))
    ensures forall i :: 0 <= i <= |Best(s, k)| ==> Sorted(Best(s, k)[..i])
  {
    SortLength(s);
  }

  lemma BestStep(s: seq<real>, x: real, k: nat)
    requires k > 0
    ensures |Best(s, k)| == Min(|s|, k)
    ensures Best(s + [x], k) ==
            if |s| < k then Insert(Best(s, k), x)
            else if x < Best(s, k)[k - 1] then Insert(Best(s, k)[..k - 1], x)
            else Best(s, k)
  {
    SortLength(s);
    SortLength(s + [x]);
    assert (s + [x])[..|s|] == s;
    var t := Sort(s);
    if |s| < k {
      assert t[..|s|] == t;
    } else if x < t[k - 1] {
      InsertBelow(t, x, k);
      assert t[..k][..k - 1] == t[..k - 1];
    } else {
      InsertAbove(t, x, k);
    }
  }

  /** Where insertion puts x. */
  lemma {:induction false} InsertAt(b: seq<real>, x: real, pos: nat)
    requires pos <= |b| && (pos > 0 ==> b[pos - 1] <= x)
    requires forall j :: pos <= j < |b| ==> b[j] > x
    ensures Insert(b, x) == b[..pos] + [x] + b[pos..]
  {
    if b != [] && b[|b| - 1] > x {
      var init := b[..|b| - 1];
      InsertAt(init, x, pos);
      assert b[..pos] + [x] + b[pos..] == init[..pos] + [x] + init[pos..] + [b[|b| - 1]];
    }
  }

  // ---- convergence

  predicate IsMinimum(m: real, s: seq<real>) {
    m in s && forall i :: 0 <= i < |s| ==> m <= s[i]
  }

  /** has_converged, on the samples seen so far */
  predicate Converged(s: seq<real>, k: nat, epsilon: real) {
    k > 0 && |s| >= k && |Best(s, k)| == k && (1.0 + epsilon) * Best(s, k)[0] >= Best(s, k)[k - 1]
  }

  lemma BestHeadIsMinimum(s: seq<real>, k: nat)
    requires s != [] && k > 0
    ensures |Best(s, k)| == Min(|s|, k) > 0
    ensures IsMinimum(Best(s, k)[0], s)
  {
    SortLength(s);
    SortContents(s);
    var t := Sort(s);
    assert t[0] in multiset(s);
    forall i | 0 <= i < |s|
      ensures t[0] <= s[i]
    {
      assert s[i] in multiset(s);
      assert s[i] in t;
    }
  }

  /** Convergence says that each of the k smallest samples is within a factor 1 + epsilon of the minimum. */
  lemma ConvergedMeaning(s: seq<real>, k: nat, epsilon: real, m: real)
    requires k > 0 && IsMinimum(m, s)
    ensures |Best(s, k)| == Min(|s|, k)
    ensures Converged(s, k, epsilon) <==>
            |s| >= k && forall i :: 0 <= i < |Best(s, k)| ==> Best(s, k)[i] <= (1.0 + epsilon) * m
  {
    hide Best, Sorted;
    BestHeadIsMinimum(s, k);
    BestSorted(s, k);
    SameMinimum(s, m, Best(s, k)[0]);
    BoundedByLast(Best(s, k), (1.0 + epsilon) * m);
  }

  lemma SameMinimum(s: seq<real>, m: real, m': real)
    requires IsMinimum(m, s) && IsMinimum(m', s)
    ensures m == m'
  {
  }

  lemma BoundedByLast(b: seq<real>, bound: real)
    requires Sorted(b) && b != []
    ensures b[|b| - 1] <= bound <==> forall i :: 0 <= i < |b| ==> b[i] <= bound
  {
  }

  /** How many samples are at most `bound`. */
  function Within(s: seq<real>, bound: real): nat {
    if s == [] then 0 else Within(s[..|s| - 1], bound) + (if s[|s| - 1] <= bound then 1 else 0)
  }

  lemma {:induction false} WithinMeaning(s: seq<real>, bound: real)
    ensures Within(s, bound) == |set i | 0 <= i < |s| && s[i] <= bound|
  {
    if s != [] {
      WithinMeaning(s[..|s| - 1], bound);
      OneMoreWithin(s, bound);
    }
  }

  lemma OneMoreWithin(s: seq<real>, bound: real)
    requires s != []
    ensures var k := |s| - 1;
            |set i | 0 <= i < |s| && s[i] <= bound| ==
            |set i | 0 <= i < k && s[..k][i] <= bound| + (if s[k] <= bound then 1 else 0)
  {
    var k := |s| - 1;
    var before := set i | 0 <= i < k && s[..k][i] <= bound;
    assert (set i | 0 <= i < |s| && s[i] <= bound) == before + (if s[k] <= bound then {k} else {});
  }

  lemma WithinAppend(s: seq<real>, x: real, bound: real)
    ensures Within(s + [x], bound) == Within(s, bound) + (if x <= bound then 1 else 0)
  {
    assert (s + [x])[..|s|] == s;
  }

  lemma {:induction false} WithinInsert(s: seq<real>, x: real, bound: real)
    ensures Within(Insert(s, x), bound) == Within(s, bound) + (if x <= bound then 1 else 0)
  {
    hide Within;
    if s != [] && s[|s| - 1] > x {
      var init, last := s[..|s| - 1], s[|s| - 1];
      assert s == init + [last];
      WithinInsert(init, x, bound);
      WithinAppend(Insert(init, x), last, bound);
      WithinAppend(init, last, bound);
    } else {
      assert Insert(s, x) == s + [x];
      WithinAppend(s, x, bound);
    }
  }

  lemma {:induction false} WithinSort(s: seq<real>, bound: real)
    ensures Within(Sort(s), bound) == Within(s, bound)
  {
    if s != [] {
      WithinSort(s[..|s| - 1], bound);
      WithinInsert(Sort(s[..|s| - 1]), s[|s| - 1], bound);
    }
  }

  /** In a sorted sequence the k-th element is within the bound exactly when k elements are. */
  lemma {:induction false} WithinSorted(t: seq<real>, bound: real, k: nat)
    requires Sorted(t) && 0 < k <= |t|
    ensures t[k - 1] <= bound <==> Within(t, bound) >= k
    ensures Within(t, bound) <= |t|
  {
    var init := t[..|t| - 1];
    if k < |t| {
      WithinSorted(init, bound, k);
    } else if k > 1 {
      WithinSorted(init, bound, k - 1);
    }
  }

  /** Convergence without any sorting: at least k of the samples are within a factor 1 + epsilon of the
      minimum. */
  lemma ConvergedCount(s: seq<real>, k: nat, epsilon: real, m: real)
    requires 0 < k && IsMinimum(m, s)
    ensures Converged(s, k, epsilon) <==> |set i | 0 <= i < |s| && s[i] <= (1.0 + epsilon) * m| >= k
  {
    hide Sort, Within, Sorted;
    var bound := (1.0 + epsilon) * m;
    WithinMeaning(s, bound);
    WithinSort(s, bound);
    SortLength(s);
    if |s| >= k {
      WithinSorted(Sort(s), bound, k);
      BestHeadIsMinimum(s, k);
      SameMinimum(s, m, Best(s, k)[0]);
    } else {
      WithinSorted(Sort(s), bound, |s|);
    }
  }

  // ---- the sampler

  class Sampler {
    var kbest: int
    var maxsamples: int
    var epsilon: real
    var values: array<real>
    var samplecount: int
    /** Every sample since the sampler was initialised. */
    ghost var samples: seq<real>

    ghost predicate Valid()
      reads this, values
    {
      && kbest >= 1 && values.Length == kbest
      && samplecount == |samples|
      && Min(|samples|, kbest) == |Best(samples, kbest)|
      && values[..Min(|samples|, kbest)] == Best(samples, kbest)
    }

    /** The parameters, as the set_fcyc functions leave them, and an empty sampler. */
    constructor (kbest: int, maxsamples: int, epsilon: real)
      requires kbest >= 1
      ensures Valid() && samples == [] && fresh(values)
      ensures this.kbest == kbest && this.maxsamples == maxsamples && this.epsilon == epsilon
    {
      this.kbest, this.maxsamples, this.epsilon := kbest, maxsamples, epsilon;
      values := new real[kbest](_ => 0.0);
      samplecount := 0;
      samples := [];
    }

    /** init_sampler */
    method Init()
      requires kbest >= 1
      modifies this
      ensures Valid() && samples == [] && fresh(values)
      ensures kbest == old(kbest) && maxsamples == old(maxsamples) && epsilon == old(epsilon)
    {
      values := new real[kbest](_ => 0.0);
      samplecount := 0;
      samples := [];
    }

    /** The insertion sort of add_sample: values[..pos] is sorted, values[pos] is the new sample. */
    method SiftDown(start: nat, ghost b: seq<real>)
      requires start == |b| < values.Length && Sorted(b) && values[..start] == b
      modifies values
      ensures |Insert(b, old(values[start]))| == start + 1
      ensures values[..start + 1] == Insert(b, old(values[start]))
    {
      ghost var x := values[start];
      var pos: int := start;
      while pos > 0 && values[pos - 1] > values[pos]
        invariant 0 <= pos <= start
        invariant values[..start + 1] == b[..pos] + [x] + b[pos..]
        invariant forall j :: pos <= j < |b| ==> b[j] > x
      {
        assert values[pos - 1] == values[..start + 1][pos - 1] && values[pos] == values[..start + 1][pos];
        values[pos - 1], values[pos] := values[pos], values[pos - 1];
        pos := pos - 1;
      }
      assert values[pos] == values[..start + 1][pos] && (pos > 0 ==> values[pos - 1] == values[..start + 1][pos - 1]);
      InsertAt(b, x, pos);
    }

    /** add_sample: the buffer always holds the k smallest of all the samples seen. A sample that is
        not stored leaves pos at 0, where the insertion sort does nothing. */
    method AddSample(val: real)
      requires Valid()
      modifies this`samplecount, this`samples, values
      ensures Valid() && samples == old(samples) + [val]
    {
      hide Best, Insert, Sorted;
      ghost var b := Best(samples, kbest);
      BestStep(samples, val, kbest);
      BestSorted(samples, kbest);
      var pos := 0;
      if samplecount < kbest {
        pos := samplecount;
        values[pos] := val;
        SiftDown(pos, b);
      } else if val < values[kbest - 1] {
        pos := kbest - 1;
        assert values[..pos] == b[..pos];
        values[pos] := val;
        SiftDown(pos, b[..pos]);
      }
      samplecount := samplecount + 1;
      samples := samples + [val];
    }

    /** has_converged */
    method HasConverged() returns (r: bool)
      requires Valid()
      ensures r <==> Converged(samples, kbest, epsilon)
    {
      r := samplecount >= kbest && (1.0 + epsilon) * values[0] >= values[kbest - 1];
      assert samplecount >= kbest ==> values[..kbest] == Best(samples, kbest);
    }

    /** The body of the sampling loop: one more measurement, and whether that is enough. */
    method TakeSample(stream: nat -> real) returns (converged: bool)
      requires Valid() && samples == Prefix(stream, |samples|)
      modifies this`samplecount, this`samples, values
      ensures Valid() && |samples| == old(|samples|) + 1
      ensures samples == Prefix(stream, |samples|)
      ensures forall i :: 0 <= i < |samples| ==> samples[i] == stream(i)
      ensures converged <==> Converged(samples, kbest, epsilon)
    {
      hide Converged, Best;
      AddSample(stream(samplecount));
      converged := HasConverged();
    }

    /** The first entry of the buffer. */
    method Smallest() returns (r: real)
      requires Valid() && samples != []
      ensures IsMinimum(r, samples)
    {
      hide Best, IsMinimum;
      BestHeadIsMinimum(samples, kbest);
      r := values[0];
      assert r == values[..Min(|samples|, kbest)][0];
    }

    /** fcyc without compensation: sample until the k smallest have converged or the budget is spent. */
    method Measure(stream: nat -> real) returns (result: real)
      requires kbest >= 1
      modifies this
      ensures Valid()
      ensures kbest == old(kbest) && maxsamples == old(maxsamples) && epsilon == old(epsilon)
      ensures 1 <= |samples| && (|samples| <= maxsamples || |samples| == 1)
      ensures forall i :: 0 <= i < |samples| ==> samples[i] == stream(i)
      ensures exists i :: 0 <= i < |samples| && result == stream(i)
      ensures forall i :: 0 <= i < |samples| ==> result <= stream(i)
      ensures Converged(samples, kbest, epsilon) || |samples| >= maxsamples
      ensures forall n :: 1 <= n < |samples| ==> !Converged(samples[..n], kbest, epsilon)
    {
      hide Converged, Prefix, Best, IsMinimum, Going;
      Init();
      NothingSampled(stream, kbest, maxsamples, epsilon);
      var go := true;
      while go
        invariant Valid() && fresh(values)
        invariant kbest == old(kbest) && maxsamples == old(maxsamples) && epsilon == old(epsilon)
        invariant samples == Prefix(stream, |samples|)
        invariant if go then Going(stream, |samples|, kbest, maxsamples, epsilon)
                  else Done(stream, |samples|, kbest, maxsamples, epsilon)
        decreases go, maxsamples - |samples|
      {
        SampleStep(stream, |samples|, kbest, maxsamples, epsilon);
        var converged := TakeSample(stream);
        go := !converged && samplecount < maxsamples;
      }
      result := Smallest();
      MeasuredStream(stream, samples, result, kbest, epsilon);
    }
  }

  // ---- when the sampling loop stops

  /** After n samples the loop goes on: no prefix has converged and the budget is not spent. */
  ghost predicate Going(stream: nat -> real, n: nat, k: nat, maxsamples: int, epsilon: real) {
    (n > 0 ==> n < maxsamples) && NoneConverged(stream, n + 1, k, epsilon)
  }

  /** It has stopped after n samples, at the first prefix that converged or with the budget spent. */
  ghost predicate Done(stream: nat -> real, n: nat, k: nat, maxsamples: int, epsilon: real) {
    && 1 <= n && (n <= maxsamples || n == 1)
    && (Converged(Prefix(stream, n), k, epsilon) || n >= maxsamples)
    && NoneConverged(stream, n, k, epsilon)
  }

  ghost predicate NoneConverged(stream: nat -> real, n: nat, k: nat, epsilon: real) {
    forall m :: 1 <= m < n ==> !Converged(Prefix(stream, m), k, epsilon)
  }

  lemma NothingSampled(stream: nat -> real, k: nat, maxsamples: int, epsilon: real)
    ensures Going(stream, 0, k, maxsamples, epsilon) && Prefix(stream, 0) == []
  {
  }

  /** What the run means for the stream itself. */
  lemma MeasuredStream(stream: nat -> real, s: seq<real>, m: real, k: nat, epsilon: real)
    requires s == Prefix(stream, |s|) && IsMinimum(m, s) && NoneConverged(stream, |s|, k, epsilon)
    ensures forall i :: 0 <= i < |s| ==> s[i] == stream(i)
    ensures exists i :: 0 <= i < |s| && m == stream(i)
    ensures forall i :: 0 <= i < |s| ==> m <= stream(i)
    ensures forall n :: 1 <= n < |s| ==> !Converged(s[..n], k, epsilon)
  {
    hide Converged;
    forall n | 1 <= n < |s|
      ensures !Converged(s[..n], k, epsilon)
    {
      assert s[..n] == Prefix(stream, n);
    }
    var i :| 0 <= i < |s| && s[i] == m;
    assert m == stream(i);
  }

  lemma SampleStep(stream: nat -> real, n: nat, k: nat, maxsamples: int, epsilon: real)
    requires Going(stream, n, k, maxsamples, epsilon)
    ensures n > 0 ==> n < maxsamples
    ensures if !Converged(Prefix(stream, n + 1), k, epsilon) && n + 1 < maxsamples
            then Going(stream, n + 1, k, maxsamples, epsilon)
            else Done(stream, n + 1, k, maxsamples, epsilon)
  {
    hide Converged, Prefix;
  }

  /** The first n measurements. */
  function Prefix(stream: nat -> real, n: nat): (s: seq<real>)
    ensures |s| == n && forall i :: 0 <= i < n ==> s[i] == stream(i)
  {
    seq(n, i requires 0 <= i < n => stream(i))
  }
}
