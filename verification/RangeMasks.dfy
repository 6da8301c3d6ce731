/** Sets of numbers kept as a list of ranges (libdevcore/RangeMask.h).  The
    std::map from begin to end is the sequence of its pairs in key order. */
module RangeMasks {

  /** Everything is a 32-bit unsigned. */
  const WIDTH: nat := 0x1_0000_0000

  datatype Range = Range(begin: nat, end: nat)

  ghost predicate In(s: seq<Range>, x: int) { exists k :: 0 <= k < |s| && s[k].begin <= x < s[k].end }

  /** Sorted, non-empty, neither overlapping nor touching, inside [lo, hi). */
  ghost predicate Canonical(s: seq<Range>, lo: nat, hi: nat) {
    && lo <= hi
    && (forall k | 0 <= k < |s| :: lo <= s[k].begin < s[k].end <= hi)
    && (forall j, k | 0 <= j < k < |s| :: s[j].end < s[k].begin)
  }

  lemma InConcat(s: seq<Range>, t: seq<Range>, x: int)
    ensures In(s + t, x) <==> In(s, x) || In(t, x)
  {
    if k :| 0 <= k < |s| && s[k].begin <= x < s[k].end { assert (s + t)[k] == s[k]; }
    if k :| 0 <= k < |t| && t[k].begin <= x < t[k].end { assert (s + t)[|s| + k] == t[k]; }
    if In(s + t, x) {
      var k :| 0 <= k < |s + t| && (s + t)[k].begin <= x < (s + t)[k].end;
      if k < |s| { assert In(s, x); } else { assert t[k - |s|] == (s + t)[k]; }
    }
  }

  lemma InOne(r: Range, x: int)
    ensures In([r], x) <==> r.begin <= x < r.end
  {
    if r.begin <= x < r.end { assert [r][0] == r; }
  }

  /** The ranges from j up to k replaced by r. */
  function Splice(s: seq<Range>, j: nat, k: nat, r: Range): seq<Range>
    requires j <= k <= |s|
  {
    s[..j] + [r] + s[k..]
  }

  lemma SpliceIn(s: seq<Range>, j: nat, k: nat, r: Range, x: int)
    requires j <= k <= |s|
    ensures In(Splice(s, j, k, r), x) <==> In(s[..j], x) || r.begin <= x < r.end || In(s[k..], x)
    ensures In(s, x) <==> In(s[..j], x) || In(s[j..k], x) || In(s[k..], x)
  {
    InConcat(s[..j] + [r], s[k..], x);
    InConcat(s[..j], [r], x);
    InOne(r, x);
    InConcat(s[..j] + s[j..k], s[k..], x);
    InConcat(s[..j], s[j..k], x);
    assert s == s[..j] + s[j..k] + s[k..];
  }

  lemma SpliceCanonical(s: seq<Range>, j: nat, k: nat, r: Range, lo: nat, hi: nat)
    requires Canonical(s, lo, hi) && j <= k <= |s| && lo <= r.begin < r.end <= hi
    requires j > 0 ==> s[j - 1].end < r.begin
    requires k < |s| ==> r.end < s[k].begin
    ensures Canonical(Splice(s, j, k, r), lo, hi)
  {
    Joined(s[..j], [r], lo, hi);
    Joined(s[..j] + [r], s[k..], lo, hi);
  }

  lemma Joined(s: seq<Range>, t: seq<Range>, lo: nat, hi: nat)
    requires Canonical(s, lo, hi) && Canonical(t, lo, hi)
    requires s != [] && t != [] ==> s[|s| - 1].end < t[0].begin
    ensures Canonical(s + t, lo, hi)
  {
    forall j, k | 0 <= j < |s| <= k < |s + t|
      ensures s[j].end < (s + t)[k].begin
    {
      assert s[j].end <= s[|s| - 1].end && t[0].begin <= t[k - |s|].begin;
    }
  }

  /** The first range that begins behind i (std::map::upper_bound). */
  function UpperBound(s: seq<Range>, i: nat): (k: nat)
    ensures k <= |s|
    ensures k > 0 ==> s[k - 1].begin <= i
    ensures forall j | k <= j < |s| :: s[j].begin > i
  {
    if s == [] then 0
    else if s[|s| - 1].begin <= i then |s|
    else UpperBound(s[..|s| - 1], i)
  }

  /** Only the range before upper_bound can hold i. */
  lemma Located(s: seq<Range>, lo: nat, hi: nat, i: nat)
    requires Canonical(s, lo, hi)
    ensures var k := UpperBound(s, i); In(s, i) <==> k > 0 && s[k - 1].end > i
  {
  }

  // ----- What the ranges are, the set determines -----

  /** Two canonical lists with the same elements are the same list. */
  lemma {:induction false} SameElementsSameRanges(s: seq<Range>, t: seq<Range>, lo: nat, hi: nat)
    requires Canonical(s, lo, hi) && Canonical(t, lo, hi)
    requires forall x :: In(s, x) <==> In(t, x)
    ensures s == t
    decreases |s|
  {
    FirstIn(s, lo, hi);
    FirstIn(t, lo, hi);
    if s != [] {
      assert In(t, s[0].begin);
      SameFirst(s, t, lo, hi);
      SameFirst(t, s, lo, hi);
      forall x
        ensures In(s[1..], x) <==> In(t[1..], x)
      {
        InTail(s, lo, hi, x);
        InTail(t, lo, hi, x);
      }
      SameElementsSameRanges(s[1..], t[1..], lo, hi);
      assert s == [s[0]] + s[1..] && t == [t[0]] + t[1..];
    }
  }

  lemma Covered(s: seq<Range>, k: nat, x: int)
    requires k < |s|
    ensures s[k].begin <= x < s[k].end ==> In(s, x)
  {
  }

  lemma FirstIn(s: seq<Range>, lo: nat, hi: nat)
    requires Canonical(s, lo, hi)
    ensures s != [] ==> In(s, s[0].begin) && !In(s, s[0].end)
  {
    if s != [] { Covered(s, 0, s[0].begin); }
  }

  lemma InTail(s: seq<Range>, lo: nat, hi: nat, x: int)
    requires Canonical(s, lo, hi) && s != []
    ensures In(s[1..], x) <==> In(s, x) && x >= s[0].end
  {
    InConcat([s[0]], s[1..], x);
    InOne(s[0], x);
    assert s == [s[0]] + s[1..];
  }

  /** The first range begins no later and ends no later than the other's. */
  lemma SameFirst(s: seq<Range>, t: seq<Range>, lo: nat, hi: nat)
    requires Canonical(s, lo, hi) && Canonical(t, lo, hi) && s != [] && t != []
    requires forall x :: In(s, x) <==> In(t, x)
    ensures s[0].begin <= t[0].begin && s[0].end <= t[0].end
  {
    FirstIn(s, lo, hi);
    FirstIn(t, lo, hi);
    assert In(s, t[0].begin) && !In(s, t[0].end);
    Covered(s, 0, t[0].end);
  }

  // ----- Counting -----

  function Size(s: seq<Range>): int {
    if s == [] then 0 else s[0].end - s[0].begin + Size(s[1..])
  }

  /** How much of a range is below x. */
  function Part(r: Range, x: nat): nat {
    if x <= r.begin then 0 else if x < r.end then x - r.begin else if r.end < r.begin then 0 else r.end - r.begin
  }

  /** How many elements are below x. */
  function Below(s: seq<Range>, x: nat): nat {
    if s == [] then 0 else Part(s[0], x) + Below(s[1..], x)
  }

  lemma {:induction false} BelowAll(s: seq<Range>, lo: nat, hi: nat, x: nat)
    requires Canonical(s, lo, hi) && x >= hi
    ensures Below(s, x) == Size(s)
  {
    if s != [] { BelowAll(s[1..], lo, hi, x); }
  }

  lemma {:induction false} BelowNone(s: seq<Range>, lo: nat, hi: nat, x: nat)
    requires Canonical(s, lo, hi) && (s != [] ==> x <= s[0].begin)
    ensures Below(s, x) == 0
  {
    if s != [] { BelowNone(s[1..], lo, hi, x); }
  }

  lemma {:induction false} BelowStep(s: seq<Range>, lo: nat, hi: nat, x: nat)
    requires Canonical(s, lo, hi)
    ensures Below(s, x + 1) == Below(s, x) + if In(s, x) then 1 else 0
  {
    if s != [] {
      BelowStep(s[1..], lo, hi, x);
      InTail(s, lo, hi, x);
      if x < s[0].begin { BelowNone(s[1..], lo, hi, x); }
      if s[0].begin <= x < s[0].end { assert In(s, x); }
    }
  }

  /** Nothing is counted where there is nothing. */
  lemma {:induction false} BelowGap(s: seq<Range>, lo: nat, hi: nat, x: nat, y: nat)
    requires Canonical(s, lo, hi) && x <= y
    requires forall z | x <= z < y :: !In(s, z)
    ensures Below(s, x) == Below(s, y)
    decreases y - x
  {
    if x < y {
      BelowStep(s, lo, hi, x);
      BelowGap(s, lo, hi, x + 1, y);
    }
  }

  // ----- next -----

  /** The least element above t, or the end of the ground range. */
  ghost predicate IsNext(s: seq<Range>, hi: nat, t: nat, r: nat) {
    || (In(s, r) && r > t && forall x :: In(s, x) && x > t ==> r <= x)
    || (r == hi && forall x :: In(s, x) ==> x <= t)
  }

  function NextOf(s: seq<Range>, hi: nat, t: nat): nat {
    var from := (t + 1) % WIDTH;
    var k := UpperBound(s, from);
    if k > 0 && s[k - 1].end > from then from
    else if k == |s| then hi
    else s[k].begin
  }

  /** An element behind the first k ranges is in a later one. */
  lemma HeldFrom(s: seq<Range>, lo: nat, hi: nat, k: nat, x: int)
    requires Canonical(s, lo, hi) && k <= |s| && In(s, x) && (k > 0 ==> s[k - 1].end <= x)
    ensures k < |s| && s[k].begin <= x
  {
    var j :| 0 <= j < |s| && s[j].begin <= x < s[j].end;
    assert j >= k;
  }

  lemma NextInside(s: seq<Range>, lo: nat, hi: nat, t: nat)
    requires Canonical(s, lo, hi) && hi < WIDTH && t < WIDTH - 1
    ensures IsNext(s, hi, t, NextOf(s, hi, t))
  {
    var from, r := t + 1, NextOf(s, hi, t);
    assert (t + 1) % WIDTH == from;
    Located(s, lo, hi, from);
    var k := UpperBound(s, from);
    forall x | In(s, x) && x > t && !In(s, from)
      ensures k < |s| && s[k].begin <= x
    {
      HeldFrom(s, lo, hi, k, x);
    }
    if k < |s| { Covered(s, k, s[k].begin); }
  }

  lemma NextWraps(s: seq<Range>, lo: nat, hi: nat)
    requires Canonical(s, lo, hi) && hi < WIDTH && s != []
    ensures !IsNext(s, hi, WIDTH - 1, NextOf(s, hi, WIDTH - 1))
  {
    var k := UpperBound(s, 0);
    Located(s, lo, hi, 0);
    FirstIn(s, lo, hi);
    assert k == 0 ==> NextOf(s, hi, WIDTH - 1) == s[0].begin;
    assert k > 0 ==> s[k - 1].begin == 0;
  }

  /** next is right except at the largest 32-bit number, where it wraps around
      to the first element. */
  lemma NextIsRight(s: seq<Range>, lo: nat, hi: nat, t: nat)
    requires Canonical(s, lo, hi) && hi < WIDTH && t < WIDTH
    ensures IsNext(s, hi, t, NextOf(s, hi, t)) <==> t < WIDTH - 1 || s == []
  {
    if t < WIDTH - 1 { NextInside(s, lo, hi, t); }
    else if s != [] { NextWraps(s, lo, hi); }
  }

  // ----- lowest -----

  function Min(a: nat, b: nat): nat { if a < b then a else b }

  /** What the loop of lowest leaves, 32-bit sums included. */
  function LowestOf(s: seq<Range>, items: nat): seq<Range> {
    if s == [] || items == 0 then []
    else
      var end := Min((s[0].begin + items) % WIDTH, s[0].end);
      [Range(s[0].begin, end)] + LowestOf(s[1..], (items as int - (end - s[0].begin)) % WIDTH)
  }

  /** The sum of a range's begin and what is still to be taken fits 32 bits,
      for every range the loop gets to. */
  predicate Fits(s: seq<Range>, items: nat) {
    s == [] || items == 0 ||
    (s[0].begin <= s[0].end && s[0].begin + items < WIDTH && Fits(s[1..], Left(s[0], items)))
  }

  /** The elements with fewer than `items` elements below them. */
  ghost predicate Lowest(s: seq<Range>, items: nat, t: seq<Range>) {
    forall x: nat :: In(t, x) <==> In(s, x) && Below(s, x) < items
  }

  lemma {:induction false} LowestWithin(s: seq<Range>, items: nat, x: int)
    requires In(LowestOf(s, items), x)
    ensures In(s, x)
  {
    var end := Min((s[0].begin + items) % WIDTH, s[0].end);
    var rest := LowestOf(s[1..], (items as int - (end - s[0].begin)) % WIDTH);
    InConcat([Range(s[0].begin, end)], rest, x);
    InOne(Range(s[0].begin, end), x);
    assert s == [s[0]] + s[1..];
    InConcat([s[0]], s[1..], x);
    InOne(s[0], x);
    if In(rest, x) { LowestWithin(s[1..], (items as int - (end - s[0].begin)) % WIDTH, x); }
  }

  function Left(r: Range, items: nat): nat
    requires r.begin <= r.end
  {
    if items < r.end - r.begin then 0 else items - (r.end - r.begin)
  }

  /** At the first range, no sum having wrapped. */
  lemma LowestHead(s: seq<Range>, items: nat)
    requires s != [] && s[0].begin <= s[0].end && 0 < items && s[0].begin + items < WIDTH
    ensures LowestOf(s, items)
         == [Range(s[0].begin, Min(s[0].begin + items, s[0].end))] + LowestOf(s[1..], Left(s[0], items))
  {
    var end := Min(s[0].begin + items, s[0].end);
    assert (s[0].begin + items) % WIDTH == s[0].begin + items;
    assert (items as int - (end - s[0].begin)) % WIDTH == Left(s[0], items);
  }

  lemma LowestParts(s: seq<Range>, lo: nat, hi: nat, items: nat, x: nat)
    requires Canonical(s, lo, hi) && s != [] && 0 < items && s[0].begin + items < WIDTH
    ensures (In(LowestOf(s, items), x) <==> In(s, x) && Below(s, x) < items)
       <==> (In(LowestOf(s[1..], Left(s[0], items)), x)
             <==> In(s[1..], x) && Below(s[1..], x) < Left(s[0], items))
  {
    LowestHead(s, items);
    var rest := LowestOf(s[1..], Left(s[0], items));
    if In(rest, x) { LowestWithin(s[1..], Left(s[0], items), x); }
    hide LowestOf;
    var first := Range(s[0].begin, Min(s[0].begin + items, s[0].end));
    InConcat([first], rest, x);
    InOne(first, x);
    InTail(s, lo, hi, x);
    Covered(s, 0, x);
    if x < s[0].end { BelowNone(s[1..], lo, hi, x); }
    hide In;
    assert Below(s, x) == Part(s[0], x) + Below(s[1..], x);
  }

  /** lowest yields the smallest elements, as many as were asked for, exactly
      when no sum wraps around. */
  lemma {:induction false} LowestIsRight(s: seq<Range>, lo: nat, hi: nat, items: nat)
    requires Canonical(s, lo, hi) && hi < WIDTH && items < WIDTH
    ensures Lowest(s, items, LowestOf(s, items)) <==> Fits(s, items)
  {
    if s == [] || items == 0 {
    } else if s[0].begin + items >= WIDTH {
      LowestWraps(s, lo, hi, items);
    } else {
      LowestIsRight(s[1..], lo, hi, Left(s[0], items));
      forall x: nat
        ensures (In(LowestOf(s, items), x) <==> In(s, x) && Below(s, x) < items)
           <==> (In(LowestOf(s[1..], Left(s[0], items)), x)
                 <==> In(s[1..], x) && Below(s[1..], x) < Left(s[0], items))
      {
        LowestParts(s, lo, hi, items, x);
      }
    }
  }

  lemma LowestWraps(s: seq<Range>, lo: nat, hi: nat, items: nat)
    requires Canonical(s, lo, hi) && hi < WIDTH && s != [] && 0 < items < WIDTH <= s[0].begin + items
    ensures !Lowest(s, items, LowestOf(s, items))
  {
    var x, end := s[0].begin, s[0].begin + items - WIDTH;
    assert (x + items) % WIDTH == end;
    assert Min(end, s[0].end) == end;
    assert (items as int - (end - x)) % WIDTH == 0;
    assert LowestOf(s, items) == [Range(x, end)] + [];
    InConcat([Range(x, end)], [], x);
    InOne(Range(x, end), x);
    FirstIn(s, lo, hi);
    BelowNone(s, lo, hi, x);
  }

  // ----- inverted -----

  /** Everything of [lo, upto) that is not in s. */
  ghost predicate Gaps(s: seq<Range>, lo: nat, upto: nat, t: seq<Range>) {
    && Canonical(t, lo, upto)
    && forall x :: In(t, x) <==> lo <= x < upto && !In(s, x)
  }

  lemma NoGaps(s: seq<Range>, lo: nat)
    ensures Gaps(s, lo, lo, [])
  {
  }

  /** One more gap, up to a later range or to the end. */
  lemma GapAdded(s: seq<Range>, lo: nat, last: nat, upto: nat, t: seq<Range>)
    requires Gaps(s, lo, last, t) && last <= upto
    requires (t != [] ==> t[|t| - 1].end < last) || last == upto
    requires forall x | last <= x < upto :: !In(s, x)
    ensures Gaps(s, lo, upto, if last != upto then t + [Range(last, upto)] else t)
  {
    forall x
      ensures In(t + [Range(last, upto)], x) <==> In(t, x) || last <= x < upto
    {
      InConcat(t, [Range(last, upto)], x);
      InOne(Range(last, upto), x);
    }
  }

  /** On to the end of range k, all of which is in s. */
  lemma GapsOver(s: seq<Range>, lo: nat, hi: nat, k: nat, t: seq<Range>)
    requires Canonical(s, lo, hi) && k < |s| && Gaps(s, lo, s[k].begin, t)
    ensures Gaps(s, lo, s[k].end, t)
  {
    forall x | s[k].begin <= x < s[k].end
      ensures In(s, x)
    {
      Covered(s, k, x);
    }
  }

  /** Where the gap before range k starts. */
  function LastEnd(s: seq<Range>, lo: nat, k: nat): nat
    requires k <= |s|
  {
    if k == 0 then lo else s[k - 1].end
  }

  lemma NothingBetween(s: seq<Range>, lo: nat, hi: nat, k: nat)
    requires Canonical(s, lo, hi) && k <= |s|
    ensures forall x :: LastEnd(s, lo, k) <= x < (if k < |s| then s[k].begin else hi) ==> !In(s, x)
  {
    forall x | LastEnd(s, lo, k) <= x && In(s, x)
      ensures k < |s| && s[k].begin <= x
    {
      HeldFrom(s, lo, hi, k, x);
    }
  }

  // ----- union -----

  /** t holds the elements of s and those of [from, upto) below i. */
  ghost predicate Grown(s: seq<Range>, from: nat, upto: nat, i: nat, t: seq<Range>) {
    forall x :: In(t, x) <==> In(s, x) || (from <= x < upto && x < i)
  }

  /** Ranges j up to k, and the gap between them, give way to r. */
  lemma Merged(s: seq<Range>, j: nat, k: nat, r: Range, lo: nat, hi: nat)
    requires Canonical(s, lo, hi) && j <= k <= |s| && lo <= r.begin < r.end <= hi
    requires (j > 0 ==> s[j - 1].end < r.begin) && (k < |s| ==> r.end < s[k].begin)
    requires forall n | j <= n < k :: r.begin <= s[n].begin && s[n].end <= r.end
    ensures Canonical(Splice(s, j, k, r), lo, hi)
    ensures forall x :: In(Splice(s, j, k, r), x) <==> In(s, x) || r.begin <= x < r.end
  {
    SpliceCanonical(s, j, k, r, lo, hi);
    forall x
      ensures In(Splice(s, j, k, r), x) <==> In(s, x) || r.begin <= x < r.end
    {
      SpliceIn(s, j, k, r, x);
      if In(s[j..k], x) {
        var n :| 0 <= n < k - j && s[j..k][n].begin <= x < s[j..k][n].end;
        assert s[j + n] == s[j..k][n];
      }
    }
  }

  /** Where one round of unionWith gets to, and what it leaves. */
  function UnionStep(s: seq<Range>, i: nat, upto: nat): (seq<Range>, nat)
    requires i < upto
  {
    var k := UpperBound(s, i);
    var far := k == |s| || s[k].begin > upto;
    if k == 0 || s[k - 1].end < i then
      if far then (Splice(s, k, k, Range(i, upto)), upto)
      else (Splice(s, k, k + 1, Range(i, s[k].end)), s[k].end)
    else if s[k - 1].end == i then
      if far then (Splice(s, k - 1, k, Range(s[k - 1].begin, upto)), upto)
      else (Splice(s, k - 1, k + 1, Range(s[k - 1].begin, s[k].end)), s[k].end)
    else (s, s[k - 1].end)
  }

  /** The round moves on, keeps the list canonical and adds what it passes. */
  ghost predicate Adds(s: seq<Range>, i: nat, upto: nat, lo: nat, hi: nat, t: seq<Range>, n: nat) {
    && i < n <= hi && Canonical(t, lo, hi)
    && forall x :: In(t, x) <==> In(s, x) || (i <= x < upto && x < n)
  }

  /** Ranges j up to k replaced by one from `begin`, no later than i, to n. */
  lemma MergedAdds(s: seq<Range>, i: nat, upto: nat, lo: nat, hi: nat, j: nat, k: nat, begin: nat, n: nat)
    requires Canonical(s, lo, hi) && lo <= begin <= i < n <= hi && j <= k <= |s|
    requires (j > 0 ==> s[j - 1].end < begin) && (k < |s| ==> n < s[k].begin)
    requires forall m | j <= m < k :: begin <= s[m].begin && s[m].end <= n
    requires forall x | begin <= x < n && !(i <= x < upto) :: In(s, x)
    ensures Adds(s, i, upto, lo, hi, Splice(s, j, k, Range(begin, n)), n)
  {
    var r := Range(begin, n);
    Merged(s, j, k, r, lo, hi);
    forall x
      ensures In(Splice(s, j, k, r), x) <==> In(s, x) || (i <= x < upto && x < n)
    {
    }
  }

  lemma Neighbours(s: seq<Range>, lo: nat, hi: nat, k: nat)
    requires Canonical(s, lo, hi) && k < |s|
    ensures lo <= s[k].begin < s[k].end <= hi
    ensures k > 0 ==> s[k - 1].end < s[k].begin
    ensures k + 1 < |s| ==> s[k].end < s[k + 1].begin
  {
  }

  lemma StepApart(s: seq<Range>, i: nat, upto: nat, lo: nat, hi: nat, k: nat)
    requires Canonical(s, lo, hi) && lo <= i < upto <= hi && k == UpperBound(s, i)
    requires k > 0 ==> s[k - 1].end < i
    ensures k == |s| || s[k].begin > upto ==> Adds(s, i, upto, lo, hi, Splice(s, k, k, Range(i, upto)), upto)
    ensures k < |s| && s[k].begin <= upto ==>
              Adds(s, i, upto, lo, hi, Splice(s, k, k + 1, Range(i, s[k].end)), s[k].end)
  {
    hide In, Adds, Splice;
    if k == |s| || s[k].begin > upto {
      MergedAdds(s, i, upto, lo, hi, k, k, i, upto);
    } else {
      CoveredAll(s, k);
      MergedAdds(s, i, upto, lo, hi, k, k + 1, i, s[k].end);
    }
  }

  lemma StepTouches(s: seq<Range>, i: nat, upto: nat, lo: nat, hi: nat, k: nat)
    requires Canonical(s, lo, hi) && lo <= i < upto <= hi && k == UpperBound(s, i)
    requires k > 0 && s[k - 1].end == i
    ensures var low := s[k - 1].begin;
      && (k == |s| || s[k].begin > upto ==>
            Adds(s, i, upto, lo, hi, Splice(s, k - 1, k, Range(low, upto)), upto))
      && (k < |s| && s[k].begin <= upto ==>
            Adds(s, i, upto, lo, hi, Splice(s, k - 1, k + 1, Range(low, s[k].end)), s[k].end))
  {
    hide In, Adds, Splice, Canonical;
    var low := s[k - 1].begin;
    Neighbours(s, lo, hi, k - 1);
    if k < |s| { Neighbours(s, lo, hi, k); }
    CoveredAll(s, k - 1);
    if k == |s| || s[k].begin > upto {
      MergedAdds(s, i, upto, lo, hi, k - 1, k, low, upto);
    } else {
      CoveredAll(s, k);
      MergedAdds(s, i, upto, lo, hi, k - 1, k + 1, low, s[k].end);
    }
  }

  lemma StepInside(s: seq<Range>, i: nat, upto: nat, lo: nat, hi: nat, k: nat)
    requires Canonical(s, lo, hi) && lo <= i < upto <= hi && k == UpperBound(s, i)
    requires k > 0 && s[k - 1].end > i
    ensures Adds(s, i, upto, lo, hi, s, s[k - 1].end)
  {
    CoveredAll(s, k - 1);
  }

  lemma UnionStepAdds(s: seq<Range>, i: nat, upto: nat, lo: nat, hi: nat)
    requires Canonical(s, lo, hi) && lo <= i < upto <= hi
    ensures var (t, n) := UnionStep(s, i, upto); Adds(s, i, upto, lo, hi, t, n)
  {
    hide In, Adds, Splice, Canonical;
    var k := UpperBound(s, i);
    if k == 0 || s[k - 1].end < i {
      StepApart(s, i, upto, lo, hi, k);
    } else if s[k - 1].end == i {
      StepTouches(s, i, upto, lo, hi, k);
    } else {
      StepInside(s, i, upto, lo, hi, k);
    }
  }

  lemma CoveredAll(s: seq<Range>, k: nat)
    requires k < |s|
    ensures forall x :: s[k].begin <= x < s[k].end ==> In(s, x)
  {
  }

  class RangeMask {
    /** The ground range. */
    var all: Range
    var ranges: seq<Range>

    ghost predicate Valid()
      reads this
    {
      all.end < WIDTH && Canonical(ranges, all.begin, all.end)
    }

    constructor (a: Range)
      requires a.begin <= a.end < WIDTH
      ensures Valid() && all == a && ranges == []
    {
      all, ranges := a, [];
    }

    /** contains. */
    function Contains(i: nat): (b: bool)
      requires Valid()
      reads this
      ensures b <==> In(ranges, i)
    {
      var k := UpperBound(ranges, i);
      Located(ranges, all.begin, all.end, i);
      k > 0 && ranges[k - 1].end > i
    }

    /** full: every number of the ground range is in the mask. */
    predicate Full()
      requires Valid()
      reads this
      ensures Full() <==> forall x :: all.begin <= x < all.end ==> In(ranges, x)
    {
      FullMeans(ranges, all);
      all.begin == all.end || (|ranges| == 1 && ranges[0] == all)
    }

    /** unionWith(Range): adds a range inside the ground range. */
    method UnionWithRange(r: Range)
      requires Valid() && (r.begin < r.end ==> all.begin <= r.begin && r.end <= all.end)
      modifies this`ranges
      ensures Valid()
      ensures forall x :: In(ranges, x) <==> In(old(ranges), x) || r.begin <= x < r.end
    {
      ghost var was := ranges;
      var i := r.begin;
      while i < r.end
        invariant Valid() && Grown(was, r.begin, r.end, i, ranges)
        invariant i >= r.begin
        decreases if i < r.end then r.end - i else 0
      {
        UnionStepAdds(ranges, i, r.end, all.begin, all.end);
        ghost var before, step := ranges, UnionStep(ranges, i, r.end);
        var k := UpperBound(ranges, i);
        if k == 0 || ranges[k - 1].end < i {
          if k == |ranges| || ranges[k].begin > r.end {
            ranges := Splice(ranges, k, k, Range(i, r.end));
            assert (ranges, r.end) == step;
            break;
          }
          var next := ranges[k].end;
          ranges := Splice(ranges, k, k + 1, Range(i, next));
          i := next;
        } else if ranges[k - 1].end == i {
          if k == |ranges| || ranges[k].begin > r.end {
            ranges := Splice(ranges, k - 1, k, Range(ranges[k - 1].begin, r.end));
            assert (ranges, r.end) == step;
            break;
          }
          var next := ranges[k].end;
          ranges := Splice(ranges, k - 1, k + 1, Range(ranges[k - 1].begin, next));
          i := next;
        } else {
          i := ranges[k - 1].end;
        }
        assert (ranges, i) == step;
      }
    }

    /** inverted: the rest of the ground range. */
    method Inverted() returns (ret: RangeMask)
      requires Valid()
      ensures fresh(ret) && ret.Valid() && ret.all == all
      ensures forall x :: In(ret.ranges, x) <==> all.begin <= x < all.end && !In(ranges, x)
    {
      ret := new RangeMask(all);
      hide Canonical, In;
      var last := all.begin;
      var t: seq<Range> := [];
      NoGaps(ranges, last);
      for k := 0 to |ranges|
        invariant last == LastEnd(ranges, all.begin, k) && Gaps(ranges, all.begin, last, t)
        invariant t != [] ==> k > 0 && t[|t| - 1].end < last
        invariant fresh(ret) && ret.all == all
      {
        var r := ranges[k];
        Neighbours(ranges, all.begin, all.end, k);
        NothingBetween(ranges, all.begin, all.end, k);
        GapAdded(ranges, all.begin, last, r.begin, t);
        if r.begin != last { t := t + [Range(last, r.begin)]; }
        GapsOver(ranges, all.begin, all.end, k, t);
        last := r.end;
      }
      NothingBetween(ranges, all.begin, all.end, |ranges|);
      GapAdded(ranges, all.begin, last, all.end, t);
      if last != all.end { t := t + [Range(last, all.end)]; }
      ret.ranges := t;
    }

    /** invert. */
    method Invert()
      requires Valid()
      modifies this`ranges
      ensures Valid()
      ensures forall x :: In(ranges, x) <==> all.begin <= x < all.end && !In(old(ranges), x)
    {
      var ret := Inverted();
      ranges := ret.ranges;
    }

    /** unionWith(RangeMask): the ground ranges are joined too. */
    method UnionWith(m: RangeMask)
      requires Valid() && m.Valid()
      modifies this
      ensures Valid() && all == Hull(old(all), old(m.all))
      ensures forall x :: In(ranges, x) <==> In(old(ranges), x) || In(old(m.ranges), x)
    {
      ghost var was := ranges;
      var added := m.ranges;
      all := Hull(all, m.all);
      for k := 0 to |added|
        invariant Valid() && all == Hull(old(all), old(m.all))
        invariant forall x :: In(ranges, x) <==> In(was, x) || In(added[..k], x)
      {
        ghost var before := ranges;
        UnionWithRange(added[k]);
        TakeOne(was, before, added, k, ranges);
      }
      assert added[..|added|] == added;
    }

    /** operator-=(Range). */
    method MinusRange(r: Range)
      requires Valid() && (r.begin < r.end ==> all.begin <= r.begin && r.end <= all.end)
      modifies this`ranges
      ensures Valid()
      ensures forall x :: In(ranges, x) <==> In(old(ranges), x) && !(r.begin <= x < r.end)
    {
      InsideAll(ranges, all);
      Invert();
      UnionWithRange(r);
      Invert();
    }

    /** operator-=(RangeMask): what of the joined ground range is neither in the
        rest of the old ground range nor in m.  A mask taken away from itself
        stays as it was, since m is inverted too. */
    method Minus(m: RangeMask)
      requires Valid() && m.Valid()
      modifies this
      ensures Valid() && all == Hull(old(all), old(m.all))
      ensures m != this ==>
        forall x :: In(ranges, x) <==> LeftBy(old(ranges), old(all), old(m.ranges), old(m.all), x)
      ensures m == this ==> ranges == old(ranges)
    {
      ghost var was := ranges;
      InsideAll(ranges, all);
      Invert();
      UnionWith(m);
      Invert();
      if m == this { SameElementsSameRanges(ranges, was, all.begin, all.end); }
    }

    /** lowest: the first `items` elements, for as long as no sum wraps. */
    method LowestItems(items: nat) returns (ret: RangeMask)
      requires Valid() && items < WIDTH
      ensures fresh(ret) && ret.all == all && ret.ranges == LowestOf(ranges, items)
      ensures Lowest(ranges, items, ret.ranges) <==> Fits(ranges, items)
    {
      LowestIsRight(ranges, all.begin, all.end, items);
      hide Lowest, Fits, Canonical;
      ret := new RangeMask(all);
      var left: nat := items;
      var t: seq<Range> := [];
      var k: nat := 0;
      while k != |ranges| && left != 0
        invariant k <= |ranges| && left < WIDTH && fresh(ret) && ret.all == all
        invariant LowestOf(ranges, items) == t + LowestOf(ranges[k..], left)
      {
        var i := ranges[k];
        var end := Min((i.begin + left) % WIDTH, i.end);
        assert ranges[k..][0] == i && ranges[k..][1..] == ranges[k + 1..];
        t := t + [Range(i.begin, end)];
        left := (left as int - (end - i.begin)) % WIDTH;
        k := k + 1;
      }
      ret.ranges := t;
    }

    /** next. */
    method Next(t: nat) returns (r: nat)
      requires Valid() && t < WIDTH
      ensures r == NextOf(ranges, all.end, t)
      ensures IsNext(ranges, all.end, t, r) <==> t < WIDTH - 1 || ranges == []
    {
      NextIsRight(ranges, all.begin, all.end, t);
      var from := (t + 1) % WIDTH;
      var k := UpperBound(ranges, from);
      if k > 0 && ranges[k - 1].end > from { return from; }
      return if k == |ranges| then all.end else ranges[k].begin;
    }

    /** size. */
    method Count() returns (c: nat)
      requires Valid()
      ensures c == Size(ranges) == Below(ranges, all.end)
    {
      BelowAll(ranges, all.begin, all.end, all.end);
      c := 0;
      for k := 0 to |ranges|
        invariant c + Size(ranges[k..]) == Size(ranges)
      {
        Neighbours(ranges, all.begin, all.end, k);
        assert ranges[k..][0] == ranges[k] && ranges[k..][1..] == ranges[k + 1..];
        c := c + (ranges[k].end - ranges[k].begin);
      }
    }

    /** From begin() to end(): every element once, in order, size() of them. */
    method Iterate() returns (items: seq<nat>)
      requires Valid()
      ensures forall x: nat :: x in items <==> In(ranges, x)
      ensures forall i, j | 0 <= i < j < |items| :: items[i] < items[j]
      ensures |items| == Size(ranges)
    {
      items := [];
      var v := if ranges == [] then all.end else ranges[0].begin;
      StartsHere(ranges, all.begin, all.end, v);
      hide In, Visited, IsNext, Canonical;
      while v != all.end
        invariant v <= all.end && (v < all.end ==> In(ranges, v)) && Visited(ranges, v, items)
        decreases all.end - v
      {
        var n := Next(v);
        Passed(ranges, all.begin, all.end, v, n);
        VisitOne(ranges, v, n, items);
        items := items + [v];
        v := n;
      }
      VisitedAll(ranges, all, items);
    }
  }

  /** The elements below v, in order. */
  ghost predicate Visited(s: seq<Range>, v: nat, items: seq<nat>) {
    && (forall x: nat :: x in items <==> In(s, x) && x < v)
    && (forall i, j | 0 <= i < j < |items| :: items[i] < items[j])
    && |items| == Below(s, v)
  }

  lemma VisitOne(s: seq<Range>, v: nat, n: nat, items: seq<nat>)
    requires Visited(s, v, items) && In(s, v) && v < n && Below(s, n) == Below(s, v) + 1
    requires forall x :: In(s, x) && v < x ==> n <= x
    ensures Visited(s, n, items + [v])
  {
    var more := items + [v];
    forall x: nat
      ensures x in more <==> In(s, x) && x < n
    {
      assert x in more <==> x in items || x == v;
    }
    forall i, j | 0 <= i < j < |more|
      ensures more[i] < more[j]
    {
      if j == |items| { assert items[i] in items; }
    }
  }

  lemma VisitedAll(s: seq<Range>, all: Range, items: seq<nat>)
    requires Canonical(s, all.begin, all.end) && Visited(s, all.end, items)
    ensures forall x: nat :: x in items <==> In(s, x)
    ensures forall i, j | 0 <= i < j < |items| :: items[i] < items[j]
    ensures |items| == Size(s)
  {
    BelowAll(s, all.begin, all.end, all.end);
    InsideAll(s, all);
  }

  /** The ground range that two masks come to share. */
  function Hull(a: Range, b: Range): Range {
    Range(Min(b.begin, a.begin), if a.end < b.end then b.end else a.end)
  }

  /** It is the least that holds both. */
  lemma HullIsLeast(a: Range, b: Range, r: Range)
    ensures r.begin <= a.begin && r.begin <= b.begin && a.end <= r.end && b.end <= r.end
       <==> r.begin <= Hull(a, b).begin && Hull(a, b).end <= r.end
  {
  }

  lemma InsideAll(s: seq<Range>, all: Range)
    requires Canonical(s, all.begin, all.end)
    ensures forall x :: In(s, x) ==> all.begin <= x < all.end
  {
  }

  /** What operator-= leaves. */
  ghost predicate LeftBy(s: seq<Range>, all: Range, t: seq<Range>, other: Range, x: int) {
    var hull := Hull(all, other);
    hull.begin <= x < hull.end && !(all.begin <= x < all.end && !In(s, x)) && !In(t, x)
  }

  /** operator-= is set difference exactly when it takes away all of the joined
      ground range that was not in its own: with equal ground ranges, always. */
  lemma MinusIsDifference(s: seq<Range>, all: Range, t: seq<Range>, other: Range)
    requires Canonical(s, all.begin, all.end) && Canonical(t, other.begin, other.end)
    ensures (forall x :: LeftBy(s, all, t, other, x) <==> In(s, x) && !In(t, x))
       <==> (forall x :: Hull(all, other).begin <= x < Hull(all, other).end && !(all.begin <= x < all.end) ==> In(t, x))
  {
    InsideAll(s, all);
    InsideAll(t, other);
  }

  lemma TakeOne(was: seq<Range>, before: seq<Range>, added: seq<Range>, k: nat, after: seq<Range>)
    requires k < |added|
    requires forall x :: In(before, x) <==> In(was, x) || In(added[..k], x)
    requires forall x :: In(after, x) <==> In(before, x) || added[k].begin <= x < added[k].end
    ensures forall x :: In(after, x) <==> In(was, x) || In(added[..k + 1], x)
  {
    assert added[..k + 1] == added[..k] + [added[k]];
    forall x
      ensures In(added[..k + 1], x) <==> In(added[..k], x) || added[k].begin <= x < added[k].end
    {
      InConcat(added[..k], [added[k]], x);
      InOne(added[k], x);
    }
  }

  lemma StartsHere(s: seq<Range>, lo: nat, hi: nat, v: nat)
    requires Canonical(s, lo, hi) && v == if s == [] then hi else s[0].begin
    ensures v <= hi && (v < hi ==> In(s, v)) && Visited(s, v, [])
  {
    FirstIn(s, lo, hi);
    BelowNone(s, lo, hi, v);
    forall x | In(s, x)
      ensures x >= v
    {
      HeldFrom(s, lo, hi, 0, x);
    }
  }

  /** From an element to the next one, just one element is passed. */
  lemma Passed(s: seq<Range>, lo: nat, hi: nat, v: nat, n: nat)
    requires Canonical(s, lo, hi) && v < hi && In(s, v) && IsNext(s, hi, v, n)
    ensures v < n <= hi && (n < hi ==> In(s, n)) && Below(s, n) == Below(s, v) + 1
    ensures forall x :: In(s, x) && v < x ==> n <= x
  {
    InsideAll(s, Range(lo, hi));
    BelowStep(s, lo, hi, v);
    BelowGap(s, lo, hi, v + 1, n);
  }

  lemma FullMeans(s: seq<Range>, all: Range)
    requires Canonical(s, all.begin, all.end)
    ensures all.begin == all.end || (|s| == 1 && s[0] == all)
       <==> forall x :: all.begin <= x < all.end ==> In(s, x)
  {
    if all.begin < all.end {
      if forall x :: all.begin <= x < all.end ==> In(s, x) {
        forall x
          ensures In([all], x) <==> In(s, x)
        {
          InOne(all, x);
        }
        SameElementsSameRanges(s, [all], all.begin, all.end);
      }
      if s == [all] { CoveredAll(s, 0); }
    }
  }

  /** Inputs on which next, lowest and operator-= do not do what they promise. */
  lemma FailingInputs()
    ensures !IsNext([Range(0, 1)], 2, 0xffff_ffff, NextOf([Range(0, 1)], 2, 0xffff_ffff))
    ensures !Lowest([Range(1, 5)], 0xffff_ffff, LowestOf([Range(1, 5)], 0xffff_ffff))
    ensures LeftBy([], Range(0, 1), [], Range(0, 2), 1) && !In([], 1)
  {
    assert Canonical([Range(0, 1)], 0, 2) && Canonical([Range(1, 5)], 1, 5);
    NextIsRight([Range(0, 1)], 0, 2, WIDTH - 1);
    LowestIsRight([Range(1, 5)], 1, 5, WIDTH - 1);
  }
}
