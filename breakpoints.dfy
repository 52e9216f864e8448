/** Breakpoint handling: the ascending sort of `manageBreakpoints`, the maximum
    breakpoint, the active breakpoint for a window width (`getCurrentBreakpoint`) and
    the "nearest ceiling" lookup of per-breakpoint values
    (`getValueForCurrentBreakpoint`). */
module Breakpoints {
  import opened Base

  predicate SortedAsc(s: seq<int>) {
    forall i, j :: 0 <= i < j < |s| ==> s[i] <= s[j]
  }

  function Insert(x: int, s: seq<int>): (r: seq<int>)
    requires SortedAsc(s)
    ensures SortedAsc(r)
    ensures multiset(r) == multiset(s) + multiset{x}
  {
    if s == [] || x <= s[0] then [x] + s
    else
      var rest := Insert(x, s[1..]);
      InsertTail(x, s, rest);
      [s[0]] + rest
  }

  lemma InsertTail(x: int, s: seq<int>, rest: seq<int>)
    requires SortedAsc(s) && s != [] && s[0] < x
    requires SortedAsc(rest) && multiset(rest) == multiset(s[1..]) + multiset{x}
    ensures SortedAsc([s[0]] + rest)
    ensures multiset([s[0]] + rest) == multiset(s) + multiset{x}
  {
    assert s == [s[0]] + s[1..];
    forall y | y in rest ensures s[0] <= y {
      assert y in multiset(rest);
      if y != x {
        assert y in multiset(s[1..]);
        assert y in s[1..];
      }
    }
    var r := [s[0]] + rest;
    forall i, j | 0 <= i < j < |r| ensures r[i] <= r[j] {
      assert r[j] == rest[j - 1];
      assert rest[j - 1] in rest;
      if i > 0 {
        assert r[i] == rest[i - 1];
      }
    }
  }

  /** `breakpoints.sort(sortAsc)`: the comparator `parseInt(a) - parseInt(b)` orders the
      integer thresholds ascending; equal thresholds are indistinguishable, so the
      sorted permutation is the only possible result. */
  function SortAscending(s: seq<int>): (r: seq<int>)
    ensures SortedAsc(r)
    ensures multiset(r) == multiset(s)
  {
    if s == [] then []
    else
      assert s == [s[0]] + s[1..];
      Insert(s[0], SortAscending(s[1..]))
  }

  lemma SortedHeadIsLeast(a: seq<int>)
    requires SortedAsc(a) && a != []
    ensures forall y :: y in multiset(a) ==> a[0] <= y
  {
    forall y | y in multiset(a) ensures a[0] <= y {
      assert y in a;
      var k :| 0 <= k < |a| && a[k] == y;
    }
  }

  lemma SortedHeadsAgree(a: seq<int>, b: seq<int>)
    requires SortedAsc(a) && SortedAsc(b) && a != [] && b != []
    requires multiset(a) == multiset(b)
    ensures a[0] == b[0]
  {
    SortedHeadIsLeast(a);
    SortedHeadIsLeast(b);
    assert a[0] in multiset(a) && b[0] in multiset(b);
  }

  lemma TailMultiset(a: seq<int>)
    requires a != []
    ensures multiset(a[1..]) == multiset(a) - multiset{a[0]}
  {
    assert a == [a[0]] + a[1..];
  }

  lemma {:induction false} SortedPermutationsEqual(a: seq<int>, b: seq<int>)
    requires SortedAsc(a) && SortedAsc(b)
    requires multiset(a) == multiset(b)
    ensures a == b
    decreases |a|
  {
    assert |a| == |multiset(a)| == |multiset(b)| == |b|;
    if a != [] {
      SortedHeadsAgree(a, b);
      TailMultiset(a);
      TailMultiset(b);
      SortedPermutationsEqual(a[1..], b[1..]);
      assert a == [a[0]] + a[1..] && b == [b[0]] + b[1..];
    }
  }

  /** Sorting an already sorted list leaves it as it is, so `manageBreakpoints` may run
      again without reordering anything. */
  lemma SortAscendingKeepsSorted(s: seq<int>)
    requires SortedAsc(s)
    ensures SortAscending(s) == s
  {
    SortedPermutationsEqual(SortAscending(s), s);
  }

  /** `_maxBreakpoint = breakpoints[breakpoints.length - 1]`: undefined for an empty list. */
  function MaxBreakpoint(bps: seq<int>): (r: Option<int>)
    ensures r.None? <==> bps == []
    ensures r.Some? ==> r.value in bps
    ensures r.Some? && SortedAsc(bps) ==> forall b :: b in bps ==> b <= r.value
  {
    if bps == [] then None else Some(bps[|bps| - 1])
  }

  /** `window.innerWidth > _maxBreakpoint`; a comparison with undefined is false. */
  predicate AboveMax(width: int, max: Option<int>) {
    max.Some? && width > max.value
  }

  /** `getCurrentBreakpoint`: the first threshold, in list order, that is at least the
      window width; undefined when there is none. */
  function CurrentBreakpoint(bps: seq<int>, width: int): (r: Option<int>)
    ensures r.Some? ==> r.value in bps && width <= r.value
    ensures r.None? <==> forall b :: b in bps ==> b < width
    ensures r.Some? && SortedAsc(bps) ==> forall b :: b in bps && width <= b ==> r.value <= b
  {
    if bps == [] then None
    else if width <= bps[0] then Some(bps[0])
    else
      assert forall b :: b in bps ==> b == bps[0] || b in bps[1..];
      CurrentBreakpoint(bps[1..], width)
  }

  /** Over a sorted list the active breakpoint is absent exactly when the width is
      above the last threshold, which is when the engine returns to the original page. */
  lemma NoActiveBreakpointIffAboveMax(bps: seq<int>, width: int)
    requires SortedAsc(bps)
    ensures CurrentBreakpoint(bps, width).None? <==> (bps == [] || AboveMax(width, MaxBreakpoint(bps)))
  {
    if bps != [] {
      var last := bps[|bps| - 1];
      assert last in bps;
    }
  }

  /** A wider window never selects a smaller breakpoint (absence counts as above all). */
  lemma CurrentBreakpointMonotone(bps: seq<int>, w1: int, w2: int)
    requires SortedAsc(bps)
    requires w1 <= w2
    ensures CurrentBreakpoint(bps, w2).Some? ==>
              CurrentBreakpoint(bps, w1).Some? &&
              CurrentBreakpoint(bps, w1).value <= CurrentBreakpoint(bps, w2).value
  {
  }

  /** The key `getValueForCurrentBreakpoint` uses: the smallest key that is at least the
      current breakpoint. With an undefined current breakpoint every comparison is false. */
  function MatchedKey(keys: set<int>, current: Option<int>): (r: Option<int>)
    ensures r.Some? ==> current.Some? && r.value in keys && current.value <= r.value
    ensures r.Some? ==> forall k :: k in keys && current.value <= k ==> r.value <= k
    ensures r.None? <==> current.None? || forall k :: k in keys ==> k < current.value
  {
    if current.None? then None
    else
      var inRange := set k | k in keys && current.value <= k;
      assert forall k :: k in keys && current.value <= k ==> k in inRange;
      if inRange == {} then None else Some(Least(inRange))
  }

  /** `getValueForCurrentBreakpoint(options)`: the value stored at the smallest key that
      is at least the current breakpoint, or undefined when no key qualifies. */
  function Resolve<V>(options: map<int, V>, current: Option<int>): (r: Option<V>)
    ensures r.None? <==> current.None? || forall k :: k in options ==> k < current.value
    ensures r.Some? ==> exists k :: k in options && current.value <= k && r.value == options[k] &&
                                    forall j :: j in options && current.value <= j ==> k <= j
  {
    match MatchedKey(options.Keys, current)
    case Some(k) => Some(options[k])
    case None => None
  }

  /** A value stored at the current breakpoint itself wins. */
  lemma ResolveExactKey<V>(options: map<int, V>, current: int)
    requires current in options
    ensures Resolve(options, Some(current)) == Some(options[current])
  {
  }

  /** A map with a key at or above the largest breakpoint resolves at every active
      breakpoint. */
  lemma ResolveWithCatchAll<V>(options: map<int, V>, bps: seq<int>, width: int, top: int)
    requires SortedAsc(bps)
    requires top in options
    requires MaxBreakpoint(bps).Some? && MaxBreakpoint(bps).value <= top
    requires CurrentBreakpoint(bps, width).Some?
    ensures Resolve(options, CurrentBreakpoint(bps, width)).Some?
  {
    assert CurrentBreakpoint(bps, width).value <= top;
  }

  /** The ceiling rule on {100: "A", 300: "B", 999: "C"}. */
  lemma ResolveCeilingExample()
    ensures var m := map[100 := "A", 300 := "B", 999 := "C"];
            Resolve(m, Some(50)) == Some("A") && Resolve(m, Some(150)) == Some("B") &&
            Resolve(m, Some(999)) == Some("C") && Resolve(m, Some(1000)) == None
  {
    var m := map[100 := "A", 300 := "B", 999 := "C"];
    assert m.Keys == {100, 300, 999};
    assert 300 in m && 999 in m;
  }

  /** alef.js: thresholds [990, 840, 560] sort to [560, 840, 990]. */
  lemma AlefBreakpointsSorted()
    ensures SortAscending([990, 840, 560]) == [560, 840, 990]
  {
    var input: seq<int> := [990, 840, 560];
    var expected: seq<int> := [560, 840, 990];
    assert multiset(input) == multiset{990} + multiset{840} + multiset{560};
    assert multiset(expected) == multiset{560} + multiset{840} + multiset{990};
    assert SortedAsc(expected);
    SortedPermutationsEqual(SortAscending(input), expected);
  }

  /** alef.js: a 700-pixel window selects 840, and a map keyed only at 990
      resolves to its 990 entry there. */
  lemma AlefActiveBreakpoint()
    ensures MaxBreakpoint([560, 840, 990]) == Some(990)
    ensures CurrentBreakpoint([560, 840, 990], 700) == Some(840)
    ensures Resolve(map[990 := 1], Some(840)) == Some(1)
  {
    assert [560, 840, 990][1..] == [840, 990];
    assert map[990 := 1].Keys == {990};
  }
}
