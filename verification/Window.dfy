/** The sensor's sliding window of 60 readings in a ring buffer, and its median. */
module Window {
  import opened Bytes

  // ----------------------------------------------------------------- median

  predicate Ordered(s: seq<int>) { forall i, j :: 0 <= i < j < |s| ==> s[i] <= s[j] }

  function Insert(x: int, s: seq<int>): seq<int>
  {
    if s == [] || x <= s[0] then [x] + s else [s[0]] + Insert(x, s[1..])
  }

  /** std::sort. */
  function Sorted(s: seq<int>): (r: seq<int>)
    ensures |r| == |s|
  {
    if s == [] then [] else InsertLength(s[0], Sorted(s[1..])); Insert(s[0], Sorted(s[1..]))
  }

  lemma InsertLength(x: int, s: seq<int>)
    ensures |Insert(x, s)| == |s| + 1
  {}

  lemma HeadAndTail(s: seq<int>)
    requires s != []
    ensures multiset(s) == multiset{s[0]} + multiset(s[1..])
  {
    assert s == [s[0]] + s[1..];
  }

  lemma {:induction false} InsertHolds(x: int, s: seq<int>)
    ensures multiset(Insert(x, s)) == multiset(s) + multiset{x}
  {
    if s != [] && x > s[0] {
      InsertHolds(x, s[1..]);
      HeadAndTail(s);
    }
  }

  lemma {:induction false} InsertKeepsBound(x: int, s: seq<int>, low: int)
    requires low <= x && forall i :: 0 <= i < |s| ==> low <= s[i]
    ensures forall i :: 0 <= i < |Insert(x, s)| ==> low <= Insert(x, s)[i]
  {
    if s != [] && x > s[0] {
      InsertKeepsBound(x, s[1..], low);
    }
  }

  lemma {:induction false} InsertKeepsOrder(x: int, s: seq<int>)
    requires Ordered(s)
    ensures Ordered(Insert(x, s))
  {
    if s != [] && x > s[0] {
      InsertKeepsOrder(x, s[1..]);
      InsertKeepsBound(x, s[1..], s[0]);
    }
  }

  lemma {:induction false} SortedIsSorted(s: seq<int>)
    ensures Ordered(Sorted(s)) && multiset(Sorted(s)) == multiset(s)
  {
    hide Ordered;
    if s == [] {
      assert Ordered([]) by { EmptyIsOrdered(); }
    } else {
      SortedIsSorted(s[1..]);
      InsertHolds(s[0], Sorted(s[1..]));
      InsertKeepsOrder(s[0], Sorted(s[1..]));
      HeadAndTail(s);
    }
  }

  lemma EmptyIsOrdered()
    ensures Ordered([])
  {}

  lemma SameHead(s: seq<int>, t: seq<int>)
    requires Ordered(s) && Ordered(t) && multiset(s) == multiset(t) && s != []
    ensures t != [] && s[0] == t[0]
  {
    assert s[0] in multiset(t);
    assert t[0] in multiset(s);
    var i :| 0 <= i < |t| && t[i] == s[0];
    var j :| 0 <= j < |s| && s[j] == t[0];
  }

  /** Only one ordered sequence holds the given elements. */
  lemma {:induction false} OrderedIsUnique(s: seq<int>, t: seq<int>)
    requires Ordered(s) && Ordered(t) && multiset(s) == multiset(t)
    ensures s == t
  {
    hide Ordered;
    if s == [] {
      assert |multiset(t)| == 0;
    } else {
      SameHead(s, t);
      TailsHoldTheSame(s, t);
      TailIsOrdered(s);
      TailIsOrdered(t);
      OrderedIsUnique(s[1..], t[1..]);
      assert s == [s[0]] + s[1..] && t == [t[0]] + t[1..];
    }
  }

  lemma TailIsOrdered(s: seq<int>)
    requires Ordered(s) && s != []
    ensures Ordered(s[1..])
  {}

  lemma TailsHoldTheSame(s: seq<int>, t: seq<int>)
    requires s != [] && t != [] && s[0] == t[0] && multiset(s) == multiset(t)
    ensures multiset(s[1..]) == multiset(t[1..])
  {
    HeadAndTail(s);
    HeadAndTail(t);
    assert multiset(s[1..]) == multiset(s) - multiset{s[0]};
    assert multiset(t[1..]) == multiset(t) - multiset{s[0]};
  }

  /** Integer division by two, truncating as in C++. */
  function Half(n: int): int { if n >= 0 then n / 2 else -(-n / 2) }

  /** calculate_median; None is the exception that vector::at throws for an empty window. */
  function Median(s: seq<int>): Option<int>
  {
    var t, n := Sorted(s), |s|;
    if n % 2 == 1 then Some(t[n / 2])
    else if n == 0 then None
    else Some(Half(t[n / 2 - 1] + t[n / 2]))
  }

  /** The median does not depend on the order of the slots. */
  lemma MedianIgnoresOrder(s: seq<int>, t: seq<int>)
    requires multiset(s) == multiset(t)
    ensures Median(s) == Median(t)
  {
    hide Sorted, Ordered;
    SortedIsSorted(s);
    SortedIsSorted(t);
    OrderedIsUnique(Sorted(s), Sorted(t));
    assert |s| == |multiset(s)| == |multiset(t)| == |t|;
  }

  /** It lies between the two middle elements of the sorted window. */
  lemma MedianIsInTheMiddle(s: seq<int>)
    requires s != []
    ensures Median(s).Some? && Sorted(s)[(|s| - 1) / 2] <= Median(s).value <= Sorted(s)[|s| / 2]
  {
    hide Sorted;
    SortedIsSorted(s);
    var t, n := Sorted(s), |s|;
    if n % 2 == 0 {
      assert (n - 1) / 2 == n / 2 - 1;
      assert t[n / 2 - 1] <= t[n / 2];
    } else {
      assert (n - 1) / 2 == n / 2;
    }
  }

  /** Told by any ordered permutation: for an odd count the median is its middle element, for an even one the
      mean of the two middle elements, truncated toward zero. */
  lemma MedianIsTheMean(s: seq<int>, ordered: seq<int>)
    requires s != [] && Ordered(ordered) && multiset(ordered) == multiset(s)
    ensures |ordered| == |s| && Median(s).Some?
    ensures |s| % 2 == 1 ==> Median(s) == Some(ordered[|s| / 2])
    ensures |s| % 2 == 0 ==>
              var sum, m := ordered[|s| / 2 - 1] + ordered[|s| / 2], Median(s).value;
              if sum >= 0 then sum - 1 <= 2 * m <= sum else sum <= 2 * m <= sum + 1
  {
    hide Sorted, Ordered;
    SortedIsSorted(s);
    OrderedIsUnique(ordered, Sorted(s));
    assert |s| == |multiset(s)| == |multiset(ordered)| == |ordered|;
  }

  /** A median stays between bounds that all elements keep. */
  lemma MedianWithin(s: seq<int>, low: int, high: int)
    requires s != [] && forall x :: x in s ==> low <= x <= high
    ensures Median(s).Some? && low <= Median(s).value <= high
  {
    hide Median, Sorted;
    SortedIsSorted(s);
    MedianIsInTheMiddle(s);
    var sorted := Sorted(s);
    forall x | x in sorted
      ensures low <= x <= high
    {
      assert x in multiset(sorted);
      assert x in multiset(s);
      assert x in s;
    }
    assert sorted[(|s| - 1) / 2] in sorted && sorted[|s| / 2] in sorted;
  }

  function CountAtMost(s: seq<int>, m: int): nat
  {
    if s == [] then 0 else (if s[0] <= m then 1 else 0) + CountAtMost(s[1..], m)
  }

  function CountAtLeast(s: seq<int>, m: int): nat
  {
    if s == [] then 0 else (if s[0] >= m then 1 else 0) + CountAtLeast(s[1..], m)
  }

  lemma {:induction false} InsertCounts(x: int, s: seq<int>, m: int)
    ensures CountAtMost(Insert(x, s), m) == CountAtMost([x] + s, m)
    ensures CountAtLeast(Insert(x, s), m) == CountAtLeast([x] + s, m)
  {
    assert ([x] + s)[1..] == s;
    if s != [] && x > s[0] {
      InsertCounts(x, s[1..], m);
      assert ([x] + s[1..])[1..] == s[1..];
    }
  }

  lemma {:induction false} SortedCounts(s: seq<int>, m: int)
    ensures CountAtMost(Sorted(s), m) == CountAtMost(s, m)
    ensures CountAtLeast(Sorted(s), m) == CountAtLeast(s, m)
  {
    if s != [] {
      SortedCounts(s[1..], m);
      InsertCounts(s[0], Sorted(s[1..]), m);
      assert ([s[0]] + Sorted(s[1..]))[1..] == Sorted(s[1..]);
    }
  }

  lemma {:induction false} LowPart(t: seq<int>, k: nat, m: int)
    requires k <= |t| && forall i :: 0 <= i < k ==> t[i] <= m
    ensures CountAtMost(t, m) >= k
  {
    if k > 0 {
      LowPart(t[1..], k - 1, m);
    }
  }

  lemma {:induction false} HighPart(t: seq<int>, k: nat, m: int)
    requires k <= |t| && forall i :: k <= i < |t| ==> t[i] >= m
    ensures CountAtLeast(t, m) >= |t| - k
  {
    if t != [] {
      HighPart(t[1..], if k > 0 then k - 1 else 0, m);
    }
  }

  /** At least half of the window is on each side of the median. */
  lemma MedianHalvesTheWindow(s: seq<int>)
    requires s != []
    ensures Median(s).Some?
    ensures 2 * CountAtMost(s, Median(s).value) >= |s|
    ensures 2 * CountAtLeast(s, Median(s).value) >= |s|
  {
    hide Median, Sorted, CountAtMost, CountAtLeast;
    var t, n := Sorted(s), |s|;
    MedianIsInTheMiddle(s);
    var m := Median(s).value;
    SortedIsSorted(s);
    LowPart(t, (n - 1) / 2 + 1, m);
    HighPart(t, n / 2, m);
    SortedCounts(s, m);
  }

  // ------------------------------------------------------------ ring buffer

  const SIZE := 60

  /** The last 60 readings, or all while there are fewer. */
  function Last(readings: seq<int>): (r: seq<int>)
    ensures |r| <= SIZE
  {
    if |readings| <= SIZE then readings else readings[|readings| - SIZE..]
  }

  /** Slot by slot: what the ring holds after the readings. */
  ghost predicate Holds(ring: seq<int>, readings: seq<int>)
    requires |ring| == SIZE
  {
    var n := |readings|;
    if n < SIZE then ring[..n] == readings
    else
      var p := n % SIZE;
      && (forall i :: 0 <= i < p ==> ring[i] == readings[n - p + i])
      && (forall i :: p <= i < SIZE ==> ring[i] == readings[n - p - SIZE + i])
  }

  lemma HoldsNext(ring: seq<int>, readings: seq<int>, v: int)
    requires |ring| == SIZE && Holds(ring, readings)
    ensures Holds(ring[|readings| % SIZE := v], readings + [v])
  {
    var n := |readings|;
    if n + 1 < SIZE {
      assert ring[n := v][..n + 1] == ring[..n] + [v];
    } else if n + 1 == SIZE {
      assert forall i :: 0 <= i < n ==> ring[i] == ring[..n][i];
    } else {
      FullHoldsNext(ring, readings, v);
    }
  }

  lemma FullHoldsNext(ring: seq<int>, readings: seq<int>, v: int)
    requires |ring| == SIZE <= |readings| && Holds(ring, readings)
    ensures Holds(ring[|readings| % SIZE := v], readings + [v])
  {
    var n, p := |readings|, |readings| % SIZE;
    var ring', readings' := ring[p := v], readings + [v];
    var p' := (n + 1) % SIZE;
    assert p' == if p + 1 < SIZE then p + 1 else 0;
    forall i | 0 <= i < SIZE
      ensures ring'[i] == readings'[if i < p' then n + 1 - p' + i else n + 1 - p' - SIZE + i]
    {}
  }

  /** The slots in use hold the elements of the window. */
  lemma HoldsWindow(ring: seq<int>, readings: seq<int>)
    requires |ring| == SIZE && Holds(ring, readings)
    ensures multiset(ring[..|Last(readings)|]) == multiset(Last(readings))
  {
    var n := |readings|;
    if n >= SIZE {
      hide Holds, Last;
      var p := n % SIZE;
      FullRing(ring, readings);
      LastInParts(readings, n - p);
      Swapped(readings[n - SIZE..n - p], readings[n - p..]);
      assert ring[..SIZE] == ring;
    } else {
      assert Last(readings) == readings;
    }
  }

  lemma LastInParts(readings: seq<int>, cut: int)
    requires 0 <= |readings| - SIZE <= cut <= |readings|
    ensures |Last(readings)| == SIZE && Last(readings) == readings[|readings| - SIZE..cut] + readings[cut..]
  {}

  lemma Swapped(a: seq<int>, b: seq<int>)
    ensures multiset(a + b) == multiset(b + a)
  {}

  /** A full ring holds the newer part of the window in front of the older one. */
  lemma FullRing(ring: seq<int>, readings: seq<int>)
    requires |ring| == SIZE <= |readings| && Holds(ring, readings)
    ensures var n, p := |readings|, |readings| % SIZE; ring == readings[n - p..] + readings[n - SIZE..n - p]
  {
    var n, p := |readings|, |readings| % SIZE;
    var both := readings[n - p..] + readings[n - SIZE..n - p];
    assert |both| == SIZE;
    assert forall i :: 0 <= i < p ==> both[i] == readings[n - p + i];
    assert forall i :: p <= i < SIZE ==> both[i] == readings[n - p - SIZE + i];
  }

  /** calculate_median on the first slots of an array. */
  method CalculateMedian(values: array<int>, size: nat) returns (median: Option<int>)
    requires size <= values.Length
    ensures median == Median(values[..size])
    ensures size > 0 ==> median.Some?
  {
    hide Sorted;
    var medianVec := Sorted(values[..size]);
    if size % 2 == 1 {
      median := Some(medianVec[size / 2]);
    } else if size == 0 {
      median := None;
    } else {
      median := Some(Half(medianVec[size / 2 - 1] + medianVec[size / 2]));
    }
  }

  lemma LastGrows(readings: seq<int>, v: int)
    ensures |Last(readings + [v])| == if |Last(readings)| < SIZE then |Last(readings)| + 1 else SIZE
    ensures (|readings| % SIZE + 1) % SIZE == |readings + [v]| % SIZE
  {}

  class SensorWindow {
    const last60: array<int>
    var pointer: nat
    var amount: nat
    var currentValue: int
    var typical: int
    ghost var readings: seq<int>

    ghost predicate Ring()
      reads this, last60
    {
      && last60.Length == SIZE
      && pointer == |readings| % SIZE
      && amount == |Last(readings)|
      && Holds(last60[..], readings)
    }

    ghost predicate Valid()
      reads this, last60
    {
      && Ring()
      && (readings != [] ==> Median(Last(readings)) == Some(typical))
    }

    constructor ()
      ensures Valid() && readings == [] && fresh(last60)
    {
      last60 := new int[SIZE];
      pointer, amount, currentValue, typical := 0, 0, 40, 0;
      readings := [];
    }

    /** The reading goes into the next slot. */
    method Store(reading: int)
      requires Valid()
      modifies this, last60
      ensures Ring() && readings == old(readings) + [reading] && currentValue == reading
    {
      hide Median, Holds, Last;
      ghost var ring := last60[..];
      HoldsNext(ring, readings, reading);
      LastGrows(readings, reading);
      currentValue := reading;
      last60[pointer] := currentValue;
      assert last60[..] == ring[pointer := reading];
      pointer := (pointer + 1) % SIZE;
      readings := readings + [reading];
      if amount < SIZE {
        amount := amount + 1;
      }
    }

    /** One round of updating_values_thread with the given reading: the window moves on, typical
        becomes the median of the last readings, and an alarm carries both values exactly when the
        reading is over the threshold. */
    method Update(reading: int, threshold: real) returns (alarm: Option<(int, int)>)
      requires Valid()
      modifies this, last60
      ensures Valid() && readings == old(readings) + [reading] && currentValue == reading
      ensures amount <= SIZE && multiset(last60[..amount]) == multiset(Last(readings))
      ensures Median(Last(readings)) == Some(typical)
      ensures alarm == if reading as real > threshold then Some((reading, typical)) else None
    {
      hide Median, Holds;
      Store(reading);
      HoldsWindow(last60[..], readings);
      assert last60[..][..amount] == last60[..amount];
      MedianIgnoresOrder(last60[..amount], Last(readings));
      var median := CalculateMedian(last60, amount);
      typical := median.value;
      alarm := if currentValue as real > threshold then Some((currentValue, typical)) else None;
    }
  }
}
