/** Ladder placement and lookup (src/App.tsx). Every `Math.random` draw of the
    source is a caller-supplied number in [1, n], where n is the board size. */
module Ladders {
  import opened Models

  /** Draws tried per endpoint before giving up. */
  const MaxDraws := 20
  /** Candidate ladders tried per game. */
  const CandidateCount := 15
  /** The value returned when no acceptable endpoint was drawn. */
  const Failed := -1

  /** `ladder[key]` with `key = isStart ? 'start' : 'end'`. */
  function KeyOf(l: Ladder, isStart: bool): int {
    if isStart then l.start else l.end
  }

  /** `ladders.map(ladder => ladder[key])`. */
  function Keys(ladders: seq<Ladder>, isStart: bool): (ks: seq<int>)
    ensures |ks| == |ladders|
    ensures forall i :: 0 <= i < |ladders| ==> ks[i] == KeyOf(ladders[i], isStart)
  {
    seq(|ladders|, i requires 0 <= i < |ladders| => KeyOf(ladders[i], isStart))
  }

  /** A drawn endpoint is kept when it is neither the first nor the last square
      and is not yet used as the selected key of an existing ladder. */
  predicate Acceptable(v: int, existing: seq<Ladder>, isStart: bool, n: int) {
    v != 1 && v != n && v !in Keys(existing, isStart)
  }

  predicate DrawsInRange(draws: seq<int>, n: int) {
    forall k :: 0 <= k < |draws| ==> 1 <= draws[k] <= n
  }

  /** Draw k is acceptable and no earlier draw is. */
  predicate FirstAcceptableAt(draws: seq<int>, k: int, existing: seq<Ladder>, isStart: bool, n: int) {
    0 <= k < |draws| && Acceptable(draws[k], existing, isStart, n) &&
    forall j :: 0 <= j < k ==> !Acceptable(draws[j], existing, isStart, n)
  }

  /** The first acceptable draw, or `Failed` when none of them is acceptable. */
  function FirstAcceptable(draws: seq<int>, existing: seq<Ladder>, isStart: bool, n: int): (v: int)
    requires DrawsInRange(draws, n)
    ensures v == Failed <==> forall k :: 0 <= k < |draws| ==> !Acceptable(draws[k], existing, isStart, n)
    ensures v != Failed ==> v in draws && Acceptable(v, existing, isStart, n)
    ensures forall k :: FirstAcceptableAt(draws, k, existing, isStart, n) ==> v == draws[k]
    decreases |draws|
  {
    if draws == [] then Failed
    else if Acceptable(draws[0], existing, isStart, n) then draws[0]
    else
      var rest := draws[1..];
      assert forall k :: 1 <= k < |draws| ==> draws[k] == rest[k - 1];
      FirstAcceptable(rest, existing, isStart, n)
  }

  /** The search from draw i on: -1 when no draw is left, otherwise draw i when
      it is acceptable and the search from draw i + 1 when it is not. */
  lemma FirstAcceptableFrom(draws: seq<int>, i: nat, existing: seq<Ladder>, isStart: bool, n: int)
    requires DrawsInRange(draws, n) && i <= |draws|
    ensures DrawsInRange(draws[i..], n)
    ensures i == |draws| ==> FirstAcceptable(draws[i..], existing, isStart, n) == Failed
    ensures i < |draws| ==>
              FirstAcceptable(draws[i..], existing, isStart, n) ==
                if Acceptable(draws[i], existing, isStart, n) then draws[i]
                else FirstAcceptable(draws[i + 1..], existing, isStart, n)
  {
    if i < |draws| {
      assert draws[i..][0] == draws[i];
      assert draws[i..][1..] == draws[i + 1..];
    }
  }

  /** `getNewValidLadderPosition`: a bounded search over at most 20 draws that
      returns the first acceptable one, or -1. */
  method NewValidLadderPosition(ladders: seq<Ladder>, isStart: bool, draws: seq<int>, n: int) returns (v: int)
    requires |draws| == MaxDraws && DrawsInRange(draws, n)
    ensures v == FirstAcceptable(draws, ladders, isStart, n)
  {
    var i := 0;
    assert draws[0..] == draws;
    while i < MaxDraws
      invariant 0 <= i <= MaxDraws
      invariant FirstAcceptable(draws[i..], ladders, isStart, n) == FirstAcceptable(draws, ladders, isStart, n)
    {
      var value := draws[i];
      var currentExisting := Keys(ladders, isStart);
      FirstAcceptableFrom(draws, i, ladders, isStart, n);
      if value != 1 && value != n && value !in currentExisting {
        return value;
      }
      i := i + 1;
    }
    FirstAcceptableFrom(draws, i, ladders, isStart, n);
    return Failed;
  }

  /** The draws consumed by one candidate ladder: one block for its start and
      one for its end. */
  datatype CandidateDraws = CandidateDraws(forStart: seq<int>, forEnd: seq<int>)

  predicate ValidDraws(ds: seq<CandidateDraws>, n: int) {
    forall i :: 0 <= i < |ds| ==>
      |ds[i].forStart| == MaxDraws && |ds[i].forEnd| == MaxDraws &&
      DrawsInRange(ds[i].forStart, n) && DrawsInRange(ds[i].forEnd, n)
  }

  /** One candidate. Both endpoints are drawn against the existing starts: the
      source passes `isStart = true` for the end as well. */
  function Candidate(d: CandidateDraws, existing: seq<Ladder>, n: int): Ladder
    requires DrawsInRange(d.forStart, n) && DrawsInRange(d.forEnd, n)
  {
    Ladder(FirstAcceptable(d.forStart, existing, true, n), FirstAcceptable(d.forEnd, existing, true, n))
  }

  /** The ladders pushed, in push order, after the candidates of `ds`. */
  function Pushed(ds: seq<CandidateDraws>, n: int): seq<Ladder>
    requires ValidDraws(ds, n)
    decreases |ds|
  {
    if ds == [] then []
    else
      var before := Pushed(ds[..|ds| - 1], n);
      var c := Candidate(ds[|ds| - 1], before, n);
      if c.start != c.end then before + [c] else before
  }

  predicate SortedByStartDesc(s: seq<Ladder>) {
    forall i, j :: 0 <= i < j < |s| ==> s[i].start >= s[j].start
  }

  /** Stable insertion of x: it goes after every element whose start is at least its own. */
  function Insert(s: seq<Ladder>, x: Ladder): seq<Ladder>
    decreases |s|
  {
    if s == [] || s[|s| - 1].start >= x.start then s + [x]
    else Insert(s[..|s| - 1], x) + [s[|s| - 1]]
  }

  /** The stable sort by descending start that `ladders.sort((a, b) => b.start - a.start)` performs. */
  function SortDesc(s: seq<Ladder>): seq<Ladder>
    decreases |s|
  {
    if s == [] then [] else Insert(SortDesc(s[..|s| - 1]), s[|s| - 1])
  }

  /** The ladder list of a game. */
  function Generated(ds: seq<CandidateDraws>, n: int): seq<Ladder>
    requires ValidDraws(ds, n)
  {
    SortDesc(Pushed(ds, n))
  }

  /** Moving one element of the sorted prefix past x does not change where x lands. */
  lemma InsertShift(s: seq<Ladder>, x: Ladder, j: nat)
    requires 0 < j <= |s| && s[j - 1].start < x.start
    ensures Insert(s[..j], x) + s[j..] == Insert(s[..j - 1], x) + s[j - 1..]
  {
    assert s[..j][..j - 1] == s[..j - 1];
    assert Insert(s[..j], x) == Insert(s[..j - 1], x) + [s[j - 1]];
    assert s[j - 1..] == [s[j - 1]] + s[j..];
  }

  /** Inserting x past a suffix whose starts are all smaller than x's leaves
      that suffix after it. */
  lemma InsertSkips(s: seq<Ladder>, x: Ladder, j: nat)
    requires j <= |s|
    requires forall k :: j <= k < |s| ==> s[k].start < x.start
    ensures Insert(s, x) == Insert(s[..j], x) + s[j..]
    decreases |s| - j
  {
    if j == |s| {
      assert s[..j] == s && s[j..] == [];
    } else {
      InsertSkips(s, x, j + 1);
      InsertShift(s, x, j + 1);
    }
  }

  /** Placing x at j, after the prefix `s[..j]` and before the shifted rest, is
      the stable insertion when the shifted elements have smaller starts than x
      and the one before j does not. */
  lemma InsertPlaced(s: seq<Ladder>, x: Ladder, j: nat, t: seq<Ladder>)
    requires j <= |s|
    requires forall k :: j <= k < |s| ==> s[k].start < x.start
    requires j == 0 || s[j - 1].start >= x.start
    requires |t| == |s| + 1 && t[j] == x
    requires forall k :: 0 <= k < j ==> t[k] == s[k]
    requires forall k :: j < k < |t| ==> t[k] == s[k - 1]
    ensures t == Insert(s, x)
  {
    InsertSkips(s, x, j);
    assert Insert(s[..j], x) == s[..j] + [x];
    assert t == s[..j] + [x] + s[j..];
  }

  /** One pass of insertion sort: shifts the sorted prefix `a[..i]` right
      until `a[i]` can be placed, as `Insert` describes. */
  method InsertIntoPrefix(a: array<Ladder>, i: nat)
    requires i < a.Length
    modifies a
    ensures a[..i + 1] == Insert(old(a[..i]), old(a[i]))
    ensures a[i + 1..] == old(a[i + 1..])
  {
    var x := a[i];
    ghost var s := a[..i];
    var j := i;
    while j > 0 && a[j - 1].start < x.start
      invariant 0 <= j <= i
      invariant forall k :: 0 <= k < j ==> a[k] == s[k]
      invariant forall k :: j < k <= i ==> a[k] == s[k - 1]
      invariant forall k :: i < k < a.Length ==> a[k] == old(a[k])
      invariant forall k :: j <= k < i ==> s[k].start < x.start
    {
      a[j] := a[j - 1];
      j := j - 1;
    }
    a[j] := x;
    InsertPlaced(s, x, j, a[..i + 1]);
  }

  /** Insertion sort in place on the array that `generateLadders` pushed into. */
  method SortByStartDescending(a: array<Ladder>)
    modifies a
    ensures a[..] == SortDesc(old(a[..]))
  {
    ghost var input := a[..];
    var i := 0;
    while i < a.Length
      invariant 0 <= i <= a.Length
      invariant a[..i] == SortDesc(input[..i])
      invariant a[i..] == input[i..]
    {
      assert input[..i + 1][..i] == input[..i];
      InsertIntoPrefix(a, i);
      i := i + 1;
    }
    assert input[..a.Length] == input;
  }

  /** `generateLadders`: 15 candidates, kept when their endpoints differ, then
      sorted by descending start. */
  method GenerateLadders(ds: seq<CandidateDraws>, n: int) returns (ladders: seq<Ladder>)
    requires |ds| == CandidateCount && ValidDraws(ds, n)
    ensures ladders == Generated(ds, n)
    ensures |ladders| <= CandidateCount && SortedByStartDesc(ladders)
    ensures WellPlaced(ladders, n) && UniqueStarts(ladders)
  {
    var pushed: seq<Ladder> := [];
    for i := 0 to CandidateCount
      invariant pushed == Pushed(ds[..i], n)
    {
      assert ds[..i + 1][..i] == ds[..i];
      var start := NewValidLadderPosition(pushed, true, ds[i].forStart, n);
      var end := NewValidLadderPosition(pushed, true, ds[i].forEnd, n);
      if start != end {
        pushed := pushed + [Ladder(start, end)];
      }
    }
    assert ds[..CandidateCount] == ds;
    var a := new Ladder[|pushed|](k requires 0 <= k < |pushed| => pushed[k]);
    assert a[..] == pushed;
    SortByStartDescending(a);
    ladders := a[..];
    GeneratedLaddersWellFormed(ds, n);
  }

  /** `ladders.findIndex(ladder => ladder[key] === pos)`, with `|ladders|`
      standing for "not found": the index of the first ladder whose selected
      endpoint is `pos`. */
  function FindIndex(ladders: seq<Ladder>, pos: int, isStart: bool): (k: nat)
    ensures k <= |ladders|
    ensures forall j :: 0 <= j < k ==> KeyOf(ladders[j], isStart) != pos
    ensures k < |ladders| ==> KeyOf(ladders[k], isStart) == pos
    decreases |ladders|
  {
    if ladders == [] then 0
    else if KeyOf(ladders[0], isStart) == pos then 0
    else 1 + FindIndex(ladders[1..], pos, isStart)
  }

  /** `ladders.find(ladder => ladder[key] === pos)`. */
  function Find(ladders: seq<Ladder>, pos: int, isStart: bool): (r: Option<Ladder>)
    ensures r.None? <==> forall i :: 0 <= i < |ladders| ==> KeyOf(ladders[i], isStart) != pos
    ensures r.Some? ==> r.value in ladders && KeyOf(r.value, isStart) == pos
    ensures r.Some? ==> FindIndex(ladders, pos, isStart) < |ladders|
    ensures r.Some? ==> r.value == ladders[FindIndex(ladders, pos, isStart)]
  {
    var k := FindIndex(ladders, pos, isStart);
    if k < |ladders| then Some(ladders[k]) else None
  }

  // Properties of generation

  /** An endpoint is either the failure value or an inner square. */
  predicate EndpointOk(v: int, n: int) {
    v == Failed || 2 <= v <= n - 1
  }

  /** Every ladder has distinct endpoints, each an inner square or the failure value. */
  predicate WellPlaced(s: seq<Ladder>, n: int) {
    forall i :: 0 <= i < |s| ==> s[i].start != s[i].end && EndpointOk(s[i].start, n) && EndpointOk(s[i].end, n)
  }

  /** No two ladders share a start, unless it is the failure value. */
  predicate UniqueStarts(s: seq<Ladder>) {
    forall i, j :: 0 <= i < |s| && 0 <= j < |s| && i != j && s[i].start == s[j].start ==> s[i].start == Failed
  }

  /** A ladder's end never coincides with the start of a ladder pushed before it. */
  predicate EndsAvoidEarlierStarts(s: seq<Ladder>) {
    forall i, j :: 0 <= i < j < |s| && s[j].end != Failed ==> s[j].end != s[i].start
  }

  /** In push order, at most one ladder per candidate is kept, and the kept
      ladders are well placed, have distinct starts and ends that avoid the
      starts pushed before them. */
  lemma {:induction false} PushedWellFormed(ds: seq<CandidateDraws>, n: int)
    requires ValidDraws(ds, n)
    ensures |Pushed(ds, n)| <= |ds|
    ensures WellPlaced(Pushed(ds, n), n)
    ensures UniqueStarts(Pushed(ds, n))
    ensures EndsAvoidEarlierStarts(Pushed(ds, n))
    decreases |ds|
  {
    if ds != [] {
      var before := Pushed(ds[..|ds| - 1], n);
      PushedWellFormed(ds[..|ds| - 1], n);
      var c := Candidate(ds[|ds| - 1], before, n);
      if c.start != c.end {
        var p := before + [c];
        assert c.start != Failed ==> c.start !in Keys(before, true);
        assert c.end != Failed ==> c.end !in Keys(before, true);
        forall i | 0 <= i < |before|
          ensures c.start != Failed ==> c.start != before[i].start
          ensures c.end != Failed ==> c.end != before[i].start
        {
          assert Keys(before, true)[i] == before[i].start;
        }
        assert p[|before|] == c;
        assert WellPlaced(p, n);
        assert UniqueStarts(p);
        assert EndsAvoidEarlierStarts(p);
      }
    }
  }

  /** Inserting adds exactly x. */
  lemma {:induction false} InsertAdds(s: seq<Ladder>, x: Ladder)
    ensures multiset(Insert(s, x)) == multiset(s) + multiset{x}
    decreases |s|
  {
    if s != [] && s[|s| - 1].start < x.start {
      var front, last := s[..|s| - 1], s[|s| - 1];
      assert s == front + [last];
      InsertAdds(front, x);
    }
  }

  /** Inserting into a sorted sequence keeps it sorted. */
  lemma {:induction false} InsertSorts(s: seq<Ladder>, x: Ladder)
    requires SortedByStartDesc(s)
    ensures SortedByStartDesc(Insert(s, x))
    decreases |s|
  {
    if s != [] && s[|s| - 1].start < x.start {
      var front, last := s[..|s| - 1], s[|s| - 1];
      InsertSorts(front, x);
      InsertAdds(front, x);
      var t := Insert(front, x);
      forall k | 0 <= k < |t| ensures t[k].start >= last.start {
        assert t[k] in multiset(front) + multiset{x};
        if t[k] != x {
          var m :| 0 <= m < |front| && front[m] == t[k];
          assert s[m] == t[k];
        }
      }
    }
  }

  /** The sort yields a permutation of its input, ordered by non-increasing start. */
  lemma {:induction false} SortDescSortsAndPermutes(s: seq<Ladder>)
    ensures SortedByStartDesc(SortDesc(s))
    ensures multiset(SortDesc(s)) == multiset(s)
    decreases |s|
  {
    if s != [] {
      var front, last := s[..|s| - 1], s[|s| - 1];
      assert s == front + [last];
      SortDescSortsAndPermutes(front);
      InsertSorts(SortDesc(front), last);
      InsertAdds(SortDesc(front), last);
    }
  }

  /** Inserting a ladder whose start is new keeps starts distinct. */
  lemma {:induction false} InsertKeepsUniqueStarts(s: seq<Ladder>, x: Ladder)
    requires SortedByStartDesc(s) && UniqueStarts(s)
    requires x.start != Failed ==> forall y :: y in s ==> y.start != x.start
    ensures UniqueStarts(Insert(s, x))
    decreases |s|
  {
    if s == [] || s[|s| - 1].start >= x.start {
      var r := s + [x];
      forall i, j | 0 <= i < |r| && 0 <= j < |r| && i != j && r[i].start == r[j].start
        ensures r[i].start == Failed
      {
        if i < |s| && j < |s| {
        } else if i == |s| {
          assert r[j] in s;
        } else {
          assert r[i] in s;
        }
      }
    } else {
      var front, last := s[..|s| - 1], s[|s| - 1];
      assert s == front + [last];
      InsertKeepsUniqueStarts(front, x);
      InsertAdds(front, x);
      var t := Insert(front, x);
      var r := t + [last];
      forall k | 0 <= k < |t| && t[k].start == last.start ensures last.start == Failed {
        assert t[k] != x;
        assert t[k] in multiset(front) + multiset{x};
        var m :| 0 <= m < |front| && front[m] == t[k];
        assert s[m] == t[k] && s[|s| - 1] == last;
      }
      forall i, j | 0 <= i < |r| && 0 <= j < |r| && i != j && r[i].start == r[j].start
        ensures r[i].start == Failed
      {
        if i < |t| && j < |t| {
        } else if i == |t| {
          assert r[j] == t[j];
        } else {
          assert r[i] == t[i];
        }
      }
    }
  }

  /** Sorting keeps starts distinct. */
  lemma {:induction false} SortDescKeepsUniqueStarts(s: seq<Ladder>)
    requires UniqueStarts(s)
    ensures UniqueStarts(SortDesc(s))
    decreases |s|
  {
    if s != [] {
      var front, last := s[..|s| - 1], s[|s| - 1];
      assert s == front + [last];
      assert UniqueStarts(front);
      SortDescKeepsUniqueStarts(front);
      SortDescSortsAndPermutes(front);
      forall y | y in SortDesc(front) && last.start != Failed ensures y.start != last.start {
        assert y in multiset(SortDesc(front));
        var m :| 0 <= m < |front| && front[m] == y;
        assert s[m] == y;
      }
      InsertKeepsUniqueStarts(SortDesc(front), last);
    }
  }

  /** The ladder list of a game: at most one ladder per candidate, ordered by
      non-increasing start, a permutation of the push order, every ladder well
      placed and no start shared. */
  lemma GeneratedLaddersWellFormed(ds: seq<CandidateDraws>, n: int)
    requires ValidDraws(ds, n)
    ensures |Generated(ds, n)| <= |ds|
    ensures SortedByStartDesc(Generated(ds, n))
    ensures multiset(Generated(ds, n)) == multiset(Pushed(ds, n))
    ensures WellPlaced(Generated(ds, n), n)
    ensures UniqueStarts(Generated(ds, n))
  {
    var p := Pushed(ds, n);
    PushedWellFormed(ds, n);
    SortDescSortsAndPermutes(p);
    SortDescKeepsUniqueStarts(p);
    var g := SortDesc(p);
    assert |g| == |multiset(g)| == |multiset(p)| == |p|;
    forall i | 0 <= i < |g|
      ensures g[i].start != g[i].end && EndpointOk(g[i].start, n) && EndpointOk(g[i].end, n)
    {
      assert g[i] in multiset(p);
    }
  }

  /** Ends are only checked against starts: two kept ladders can share an end. */
  lemma EndsMayCoincide()
    ensures Pushed([CandidateDraws(seq(MaxDraws, _ => 5), seq(MaxDraws, _ => 7)),
                    CandidateDraws(seq(MaxDraws, _ => 6), seq(MaxDraws, _ => 7))], 10)
            == [Ladder(5, 7), Ladder(6, 7)]
  {
    var d1 := CandidateDraws(seq(MaxDraws, _ => 5), seq(MaxDraws, _ => 7));
    var d2 := CandidateDraws(seq(MaxDraws, _ => 6), seq(MaxDraws, _ => 7));
    var ds := [d1, d2];
    assert ds[..1] == [d1];
    assert [d1][..0] == [];
    assert FirstAcceptableAt(d1.forStart, 0, [], true, 10);
    assert FirstAcceptableAt(d1.forEnd, 0, [], true, 10);
    assert Pushed([d1], 10) == [Ladder(5, 7)];
    assert Keys([Ladder(5, 7)], true) == [5];
    assert FirstAcceptableAt(d2.forStart, 0, [Ladder(5, 7)], true, 10);
    assert FirstAcceptableAt(d2.forEnd, 0, [Ladder(5, 7)], true, 10);
  }

  /** When every draw for a start fails, the failure value -1 becomes the start
      of a kept ladder, and a second such candidate keeps a second ladder
      starting at -1. */
  lemma SentinelStartsMayCoincide()
    ensures Pushed([CandidateDraws(seq(MaxDraws, _ => 1), seq(MaxDraws, _ => 5)),
                    CandidateDraws(seq(MaxDraws, _ => 10), seq(MaxDraws, _ => 6))], 10)
            == [Ladder(Failed, 5), Ladder(Failed, 6)]
  {
    var d1 := CandidateDraws(seq(MaxDraws, _ => 1), seq(MaxDraws, _ => 5));
    var d2 := CandidateDraws(seq(MaxDraws, _ => 10), seq(MaxDraws, _ => 6));
    var ds := [d1, d2];
    assert ds[..1] == [d1];
    assert [d1][..0] == [];
    assert forall i :: 0 <= i < |d1.forStart| ==> d1.forStart[i] == 1;
    assert FirstAcceptableAt(d1.forEnd, 0, [], true, 10);
    assert Pushed([d1], 10) == [Ladder(Failed, 5)];
    assert forall i :: 0 <= i < |d2.forStart| ==> d2.forStart[i] == 10;
    assert FirstAcceptableAt(d2.forEnd, 0, [Ladder(Failed, 5)], true, 10);
  }

  /** Sorting keeps both ladders of `SentinelStartsMayCoincide`, in push order. */
  lemma SentinelStartsKept()
    ensures Generated([CandidateDraws(seq(MaxDraws, _ => 1), seq(MaxDraws, _ => 5)),
                       CandidateDraws(seq(MaxDraws, _ => 10), seq(MaxDraws, _ => 6))], 10)
            == [Ladder(Failed, 5), Ladder(Failed, 6)]
  {
    SentinelStartsMayCoincide();
    var p := [Ladder(Failed, 5), Ladder(Failed, 6)];
    assert p[..1] == [Ladder(Failed, 5)];
    assert [Ladder(Failed, 5)][..0] == [];
    assert SortDesc([Ladder(Failed, 5)]) == [Ladder(Failed, 5)];
  }

  /** When every draw for an end fails, the failure value -1 becomes the end of
      a kept ladder, because only `start != end` is checked. */
  lemma FailedEndMayBeKept()
    ensures Pushed([CandidateDraws(seq(MaxDraws, _ => 2), seq(MaxDraws, _ => 3)),
                    CandidateDraws(seq(MaxDraws, _ => 3), seq(MaxDraws, _ => 2))], 4)
            == [Ladder(2, 3), Ladder(3, Failed)]
  {
    var d1 := CandidateDraws(seq(MaxDraws, _ => 2), seq(MaxDraws, _ => 3));
    var d2 := CandidateDraws(seq(MaxDraws, _ => 3), seq(MaxDraws, _ => 2));
    var ds := [d1, d2];
    assert ds[..1] == [d1];
    assert [d1][..0] == [];
    assert FirstAcceptableAt(d1.forStart, 0, [], true, 4);
    assert FirstAcceptableAt(d1.forEnd, 0, [], true, 4);
    assert Pushed([d1], 4) == [Ladder(2, 3)];
    assert Keys([Ladder(2, 3)], true) == [2];
    assert FirstAcceptableAt(d2.forStart, 0, [Ladder(2, 3)], true, 4);
    assert forall k :: 0 <= k < MaxDraws ==> !Acceptable(d2.forEnd[k], [Ladder(2, 3)], true, 4);
    assert Candidate(d2, [Ladder(2, 3)], 4) == Ladder(3, Failed);
  }
}
