/**
 * The list operations the portal performs on its tracked travelers, as
 * functions on sequences: List.Contains followed by List.Add, List.Remove,
 * the in-place filter that HandleTravelers performs with RemoveAt(i); i--,
 * and the linked portal receiving the travelers that crossed, one by one.
 */
module Tracking {

  /** Every element occurs once. */
  predicate NoDup<T(==)>(s: seq<T>) {
    forall i, j :: 0 <= i < j < |s| ==> Apart(s, i, j)
  }

  /**
   * Positions i and j hold different elements. NoDup is stated through this
   * predicate so that its quantifier is only used where a proof names a pair
   * of positions, instead of for every pair of positions a proof mentions.
   */
  predicate Apart<T(==)>(s: seq<T>, i: int, j: int)
    requires 0 <= i < |s| && 0 <= j < |s|
  {
    s[i] != s[j]
  }

  /** In a list without duplicates, different positions hold different elements. */
  lemma DistinctAt<T>(s: seq<T>, i: nat, j: nat)
    requires NoDup(s) && i < |s| && j < |s| && i != j
    ensures s[i] != s[j]
  {
    if i < j {
      assert Apart(s, i, j);
    } else {
      assert Apart(s, j, i);
    }
  }

  /** Appending an element not yet present keeps a list free of duplicates. */
  lemma AppendFresh<T>(s: seq<T>, x: T)
    requires NoDup(s) && x !in s
    ensures NoDup(s + [x])
  {
    var r := s + [x];
    forall i, j | 0 <= i < j < |r| ensures Apart(r, i, j) {
      if j < |s| {
        assert Apart(s, i, j);
      }
    }
  }

  /**
   * `if (!list.Contains(x)) list.Add(x)`: adding an element already present
   * changes nothing.
   */
  function AddIfAbsent<T(==)>(s: seq<T>, x: T): (r: seq<T>)
    ensures x in r
    ensures x in s ==> r == s
    ensures |s| <= |r| && r[..|s|] == s
    ensures |r| == if x in s then |s| else |s| + 1
    ensures forall y :: y in r ==> y in s || y == x
    ensures forall y :: y in s ==> y in r
    ensures NoDup(s) ==> NoDup(r)
  {
    if x in s then s
    else
      assert NoDup(s) ==> NoDup(s + [x]) by {
        if NoDup(s) {
          AppendFresh(s, x);
        }
      }
      s + [x]
  }

  /** List.Remove: drops the first occurrence of x, if any. */
  function RemoveFirst<T(==)>(s: seq<T>, x: T): (r: seq<T>)
    ensures x !in s ==> r == s
    ensures x in s ==> |r| == |s| - 1
  {
    if s == [] then []
    else if s[0] == x then s[1..]
    else [s[0]] + RemoveFirst(s[1..], x)
  }

  /**
   * RemoveFirst closes the gap at the first occurrence of x: everything before
   * it and everything after it stays, in order.
   */
  lemma {:induction false} RemoveFirstAt<T>(s: seq<T>, x: T) returns (i: nat)
    requires x in s
    ensures i < |s| && s[i] == x && x !in s[..i]
    ensures RemoveFirst(s, x) == s[..i] + s[i + 1..]
  {
    if s[0] == x {
      i := 0;
    } else {
      assert s == [s[0]] + s[1..];
      assert x in s[1..];
      var k := RemoveFirstAt(s[1..], x);
      i := k + 1;
      assert s[..i] == [s[0]] + s[1..][..k];
      assert s[i + 1..] == s[1..][k + 1..];
      calc {
        RemoveFirst(s, x);
        [s[0]] + RemoveFirst(s[1..], x);
        [s[0]] + (s[1..][..k] + s[1..][k + 1..]);
        s[..i] + s[i + 1..];
      }
    }
  }

  /** Cutting position i out of a list without duplicates leaves no trace of s[i] and loses nothing else. */
  lemma CutNoDup<T>(s: seq<T>, i: nat)
    requires NoDup(s) && i < |s|
    ensures NoDup(s[..i] + s[i + 1..])
    ensures s[i] !in s[..i] + s[i + 1..]
  {
    var r := s[..i] + s[i + 1..];
    assert forall a :: 0 <= a < |r| ==> r[a] == s[if a < i then a else a + 1];
    forall a, b | 0 <= a < b < |r| ensures Apart(r, a, b) {
      DistinctAt(s, if a < i then a else a + 1, if b < i then b else b + 1);
    }
    forall a | 0 <= a < |r| ensures r[a] != s[i] {
      DistinctAt(s, if a < i then a else a + 1, i);
    }
  }

  /** Cutting position i out keeps every other element. */
  lemma CutKeeps<T>(s: seq<T>, i: nat, y: T)
    requires i < |s| && y in s && y != s[i]
    ensures y in s[..i] + s[i + 1..]
  {
    var a :| 0 <= a < |s| && s[a] == y;
    if a < i {
      assert y in s[..i];
    } else {
      assert s[i + 1..][a - i - 1] == y;
    }
  }

  /** On a list without duplicates, RemoveFirst removes x altogether and keeps the rest. */
  lemma {:induction false} RemoveFirstNoDup<T>(s: seq<T>, x: T)
    requires NoDup(s)
    ensures NoDup(RemoveFirst(s, x))
    ensures x !in RemoveFirst(s, x)
    ensures forall y :: y in s && y != x ==> y in RemoveFirst(s, x)
    ensures forall y :: y in RemoveFirst(s, x) ==> y in s
  {
    if x in s {
      var i := RemoveFirstAt(s, x);
      CutNoDup(s, i);
      forall y | y in s && y != x ensures y in RemoveFirst(s, x) {
        CutKeeps(s, i, y);
      }
      assert forall y :: y in s[..i] + s[i + 1..] ==> y in s[..i] || y in s[i + 1..];
    }
  }

  /**
   * Removing an element that was just added gives the list back: a traveler
   * that enters and leaves again without being handled leaves no trace in the
   * list.
   */
  lemma {:induction false} AddThenRemove<T>(s: seq<T>, x: T)
    requires x !in s
    ensures RemoveFirst(AddIfAbsent(s, x), x) == s
  {
    var i := RemoveFirstAt(s + [x], x);
    assert i == |s|;
    assert (s + [x])[..i] == s;
  }

  /**
   * The entries of s whose flag equals `which`, in their original order. With
   * `which == false` these are the travelers HandleTravelers leaves in its
   * list; with `which == true` the ones it hands to the linked portal.
   */
  function Select<T>(s: seq<T>, flags: seq<bool>, which: bool): (r: seq<T>)
    requires |flags| == |s|
    ensures |r| <= |s|
    decreases |s|
  {
    if s == [] then []
    else
      var n := |s| - 1;
      Select(s[..n], flags[..n], which) + (if flags[n] == which then [s[n]] else [])
  }

  /** Select over one more element extends the previous selection at its end. */
  lemma SelectExtend<T>(s: seq<T>, flags: seq<bool>, which: bool, k: nat)
    requires |flags| == |s| && k < |s|
    ensures Select(s[..k + 1], flags[..k + 1], which)
            == Select(s[..k], flags[..k], which) + (if flags[k] == which then [s[k]] else [])
  {
    assert s[..k + 1][..k] == s[..k];
    assert flags[..k + 1][..k] == flags[..k];
  }

  /**
   * Every element lands in exactly one of the two selections: a list walked by
   * HandleTravelers is split, each traveler once, into those kept and those
   * handed over.
   */
  lemma {:induction false} SelectPartition<T>(s: seq<T>, flags: seq<bool>)
    requires |flags| == |s|
    ensures multiset(Select(s, flags, false)) + multiset(Select(s, flags, true)) == multiset(s)
    decreases |s|
  {
    if s != [] {
      var n := |s| - 1;
      var s0, f0, x := s[..n], flags[..n], s[n];
      var k, g := Select(s0, f0, false), Select(s0, f0, true);
      SelectPartition(s0, f0);
      PartitionStep(k, g, s0, x, flags[n]);
      assert multiset(s) == multiset(s0 + [x]) by {
        assert s == s0 + [x];
      }
      assert Select(s, flags, false) == k + (if flags[n] then [] else [x]);
      assert Select(s, flags, true) == g + (if flags[n] then [x] else []);
    }
  }

  /** Sending one more element to one side of a split keeps it a split. */
  lemma PartitionStep<T>(k: seq<T>, g: seq<T>, s0: seq<T>, x: T, toSecond: bool)
    requires multiset(k) + multiset(g) == multiset(s0)
    ensures multiset(k + (if toSecond then [] else [x])) + multiset(g + (if toSecond then [x] else []))
            == multiset(s0 + [x])
  {
  }

  /**
   * Select keeps the order of the list: its elements are those at increasing
   * positions of s, each carrying the flag `which`.
   */
  lemma {:induction false} SelectPositions<T>(s: seq<T>, flags: seq<bool>, which: bool) returns (idx: seq<nat>)
    requires |flags| == |s|
    ensures |idx| == |Select(s, flags, which)|
    ensures forall i :: 0 <= i < |idx| ==> idx[i] < |s| && flags[idx[i]] == which && Select(s, flags, which)[i] == s[idx[i]]
    ensures forall i, j :: 0 <= i < j < |idx| ==> idx[i] < idx[j]
    decreases |s|
  {
    if s == [] {
      return [];
    }
    var n := |s| - 1;
    var s0, f0 := s[..n], flags[..n];
    var prev := SelectPositions(s0, f0, which);
    var r0 := Select(s0, f0, which);
    if flags[n] == which {
      idx := prev + [n];
      var r := r0 + [s[n]];
      assert Select(s, flags, which) == r;
      forall i | 0 <= i < |idx| ensures idx[i] < |s| && flags[idx[i]] == which && r[i] == s[idx[i]] {
        if i < |prev| {
          assert idx[i] == prev[i] && r[i] == r0[i];
          assert s0[prev[i]] == s[prev[i]] && f0[prev[i]] == flags[prev[i]];
        }
      }
      forall i, j | 0 <= i < j < |idx| ensures idx[i] < idx[j] {
        assert idx[i] == prev[i] < n;
      }
    } else {
      idx := prev;
      assert Select(s, flags, which) == r0 + [];
      forall i | 0 <= i < |idx| ensures idx[i] < |s| && flags[idx[i]] == which && r0[i] == s[idx[i]] {
        assert s0[prev[i]] == s[prev[i]] && f0[prev[i]] == flags[prev[i]];
      }
    }
  }

  /** Select on s[..n + 1], in terms of Select on s[..n]. */
  lemma SelectSnoc<T>(s: seq<T>, flags: seq<bool>, which: bool, y: T)
    requires |flags| == |s| && s != []
    ensures var n := |s| - 1;
            y in Select(s, flags, which)
            <==> y in Select(s[..n], flags[..n], which) || (flags[n] == which && y == s[n])
  {
  }

  /** Everything selected comes from the list. */
  lemma {:induction false} SelectWithin<T>(s: seq<T>, flags: seq<bool>, which: bool, y: T)
    requires |flags| == |s| && y in Select(s, flags, which)
    ensures y in s
    decreases |s|
  {
    var n := |s| - 1;
    SelectSnoc(s, flags, which, y);
    if y in Select(s[..n], flags[..n], which) {
      SelectWithin(s[..n], flags[..n], which, y);
      assert y in s[..n];
    }
  }

  /** A prefix of a list without duplicates has none. */
  lemma PrefixNoDup<T>(s: seq<T>, n: nat)
    requires NoDup(s) && n <= |s|
    ensures NoDup(s[..n])
  {
    forall i, j | 0 <= i < j < n ensures Apart(s[..n], i, j) {
      assert Apart(s, i, j);
    }
  }

  /** The last element of a list without duplicates is not in the rest of it. */
  lemma LastFresh<T>(s: seq<T>)
    requires NoDup(s) && s != []
    ensures s[|s| - 1] !in s[..|s| - 1]
  {
    var n := |s| - 1;
    if s[n] in s[..n] {
      var p :| 0 <= p < n && s[..n][p] == s[n];
      DistinctAt(s, p, n);
    }
  }

  /** Selecting from a list without duplicates gives a list without duplicates. */
  lemma {:induction false} SelectNoDup<T>(s: seq<T>, flags: seq<bool>, which: bool)
    requires |flags| == |s| && NoDup(s)
    ensures NoDup(Select(s, flags, which))
    decreases |s|
  {
    if s != [] {
      var n := |s| - 1;
      PrefixNoDup(s, n);
      SelectNoDup(s[..n], flags[..n], which);
      var r0 := Select(s[..n], flags[..n], which);
      if flags[n] == which {
        LastFresh(s);
        if s[n] in r0 {
          SelectWithin(s[..n], flags[..n], which, s[n]);
        }
        AppendFresh(r0, s[n]);
      } else {
        assert Select(s, flags, which) == r0 + [] == r0;
      }
    }
  }

  /** On a list without duplicates, element p is selected iff its flag is `which`. */
  lemma {:induction false} SelectMember<T>(s: seq<T>, flags: seq<bool>, which: bool, p: nat)
    requires |flags| == |s| && NoDup(s) && p < |s|
    ensures s[p] in Select(s, flags, which) <==> flags[p] == which
    decreases |s|
  {
    var n := |s| - 1;
    SelectSnoc(s, flags, which, s[p]);
    if p == n {
      LastFresh(s);
      if s[n] in Select(s[..n], flags[..n], which) {
        SelectWithin(s[..n], flags[..n], which, s[n]);
      }
    } else {
      PrefixNoDup(s, n);
      SelectMember(s[..n], flags[..n], which, p);
      assert s[..n][p] == s[p] && flags[..n][p] == flags[p];
      DistinctAt(s, p, n);
    }
  }

  /**
   * The linked portal's list after each element of xs was offered to it with
   * AddIfAbsent, first to last.
   */
  function AddAll<T(==)>(s: seq<T>, xs: seq<T>): (r: seq<T>)
    ensures |s| <= |r| && r[..|s|] == s
    ensures forall y :: y in r ==> y in s || y in xs
    ensures forall y :: y in xs ==> y in r
    ensures NoDup(s) ==> NoDup(r)
    decreases |xs|
  {
    if xs == [] then s
    else
      var n := |xs| - 1;
      assert xs == xs[..n] + [xs[n]];
      var prev := AddAll(s, xs[..n]);
      assert prev[..|s|] == s;
      AddIfAbsent(prev, xs[n])
  }

  /** Offering one more element is one more AddIfAbsent. */
  lemma AddAllSnoc<T>(s: seq<T>, xs: seq<T>, x: T)
    ensures AddAll(s, xs + [x]) == AddIfAbsent(AddAll(s, xs), x)
  {
    assert (xs + [x])[..|xs|] == xs;
  }
}

/**
 * The bookkeeping behind HandleTravelers' walk over its list: index i moves
 * forward past a traveler that stays, and stays put when the traveler at i
 * is cut out with `RemoveAt(i); i--` and offered to the linked portal.
 */
module TrackingWalk {
  import opened Tracking

  /** The tracked list, the loop index and the linked portal's list. */
  datatype Walk<T> = Walk(list: seq<T>, index: nat, handed: seq<T>)

  /**
   * The walk after it has dealt with the first k of the original entries s,
   * starting from the linked list `linked`; crossed[k] says whether entry k
   * crosses. Between steps the index never passes the end of the list, and
   * exactly the entries not yet dealt with lie from the index on.
   */
  function Walking<T(==)>(s: seq<T>, crossed: seq<bool>, linked: seq<T>, k: nat): (w: Walk<T>)
    requires |crossed| == |s| && k <= |s|
    ensures w.index <= |w.list| && |w.list| == w.index + (|s| - k)
  {
    if k == 0 then Walk(s, 0, linked)
    else
      var w := Walking(s, crossed, linked, k - 1);
      if crossed[k - 1] then
        Walk(w.list[..w.index] + w.list[w.index + 1..], w.index, AddIfAbsent(w.handed, s[k - 1]))
      else
        Walk(w.list, w.index + 1, w.handed)
  }

  /**
   * After k steps the list is the entries among the first k that did not
   * cross followed by the k-th entry onwards, the index points just past the
   * survivors, and the linked list has been offered each entry that crossed.
   */
  lemma WalkingIs<T>(s: seq<T>, crossed: seq<bool>, linked: seq<T>, k: nat)
    requires |crossed| == |s| && k <= |s|
    ensures Walking(s, crossed, linked, k).list == Select(s[..k], crossed[..k], false) + s[k..]
    ensures Walking(s, crossed, linked, k).index == |Select(s[..k], crossed[..k], false)|
    ensures Walking(s, crossed, linked, k).handed == AddAll(linked, Select(s[..k], crossed[..k], true))
  {
    WalkingListIs(s, crossed, linked, k);
    WalkingHandedIs(s, crossed, linked, k);
  }

  lemma {:induction false} WalkingListIs<T>(s: seq<T>, crossed: seq<bool>, linked: seq<T>, k: nat)
    requires |crossed| == |s| && k <= |s|
    ensures Walking(s, crossed, linked, k).list == Select(s[..k], crossed[..k], false) + s[k..]
    ensures Walking(s, crossed, linked, k).index == |Select(s[..k], crossed[..k], false)|
  {
    if k == 0 {
      assert s[..0] == [] && crossed[..0] == [] && s[0..] == s;
    } else {
      WalkingListIs(s, crossed, linked, k - 1);
      WalkingListStep(s, crossed, Walking(s, crossed, linked, k - 1), k - 1);
    }
  }

  lemma {:induction false} WalkingHandedIs<T>(s: seq<T>, crossed: seq<bool>, linked: seq<T>, k: nat)
    requires |crossed| == |s| && k <= |s|
    ensures Walking(s, crossed, linked, k).handed == AddAll(linked, Select(s[..k], crossed[..k], true))
  {
    if k == 0 {
      assert s[..0] == [] && crossed[..0] == [];
    } else {
      WalkingHandedIs(s, crossed, linked, k - 1);
      var handed := Select(s[..k - 1], crossed[..k - 1], true);
      SelectExtend(s, crossed, true, k - 1);
      if crossed[k - 1] {
        AddAllSnoc(linked, handed, s[k - 1]);
      } else {
        assert handed + [] == handed;
      }
    }
  }

  /** The list and index half of one step of WalkingIs. */
  lemma WalkingListStep<T>(s: seq<T>, crossed: seq<bool>, w: Walk<T>, n: nat)
    requires |crossed| == |s| && n < |s|
    requires w.list == Select(s[..n], crossed[..n], false) + s[n..]
    requires w.index == |Select(s[..n], crossed[..n], false)|
    ensures crossed[n] ==>
              && w.list[..w.index] + w.list[w.index + 1..] == Select(s[..n + 1], crossed[..n + 1], false) + s[n + 1..]
              && w.index == |Select(s[..n + 1], crossed[..n + 1], false)|
    ensures !crossed[n] ==>
              && w.list == Select(s[..n + 1], crossed[..n + 1], false) + s[n + 1..]
              && w.index + 1 == |Select(s[..n + 1], crossed[..n + 1], false)|
  {
    var kept := Select(s[..n], crossed[..n], false);
    assert s[n..] == [s[n]] + s[n + 1..];
    SelectExtend(s, crossed, false, n);
    if crossed[n] {
      assert w.list[..w.index] == kept;
      assert w.list[w.index + 1..] == s[n + 1..];
    } else {
      assert kept + s[n..] == (kept + [s[n]]) + s[n + 1..];
    }
  }

  /**
   * Before step k the index points at original entry k, and on a list
   * without duplicates entry k is in the linked list exactly when it was
   * there at the start.
   */
  lemma WalkingNext<T>(s: seq<T>, crossed: seq<bool>, linked: seq<T>, k: nat)
    requires |crossed| == |s| && k < |s| && NoDup(s)
    ensures Walking(s, crossed, linked, k).list[Walking(s, crossed, linked, k).index] == s[k]
    ensures s[k] in Walking(s, crossed, linked, k).handed <==> s[k] in linked
  {
    WalkingIs(s, crossed, linked, k);
    var w := Walking(s, crossed, linked, k);
    assert w.list[w.index] == s[k];
    if s[k] in Select(s[..k], crossed[..k], true) {
      SelectWithin(s[..k], crossed[..k], true, s[k]);
      var p :| 0 <= p < k && s[..k][p] == s[k];
      DistinctAt(s, p, k);
    }
  }

  /**
   * When the walk is over, the list holds exactly the entries that did not
   * cross, in their order and without duplicates, and the linked list has
   * been offered exactly the ones that did.
   */
  lemma WalkingDone<T>(s: seq<T>, crossed: seq<bool>, linked: seq<T>)
    requires |crossed| == |s| && NoDup(s)
    ensures Walking(s, crossed, linked, |s|).list == Select(s, crossed, false)
    ensures Walking(s, crossed, linked, |s|).handed == AddAll(linked, Select(s, crossed, true))
    ensures NoDup(Walking(s, crossed, linked, |s|).list)
    ensures forall j :: 0 <= j < |s| ==>
              && (s[j] in Walking(s, crossed, linked, |s|).list <==> !crossed[j])
              && (crossed[j] ==> s[j] in Walking(s, crossed, linked, |s|).handed)
  {
    WalkingIs(s, crossed, linked, |s|);
    assert s[..|s|] == s && crossed[..|s|] == crossed && s[|s|..] == [];
    assert Select(s, crossed, false) + [] == Select(s, crossed, false);
    SelectNoDup(s, crossed, false);
    forall j | 0 <= j < |s|
      ensures s[j] in Select(s, crossed, false) <==> !crossed[j]
      ensures crossed[j] ==> s[j] in AddAll(linked, Select(s, crossed, true))
    {
      WalkOutcome(s, crossed, linked, j);
    }
  }

  /**
   * When the walk is over, each original entry is either still in the list
   * (it did not cross) or was offered to the linked list (it crossed), never
   * both.
   */
  lemma {:induction false} WalkOutcome<T>(s: seq<T>, crossed: seq<bool>, linked: seq<T>, j: nat)
    requires |crossed| == |s| && NoDup(s) && j < |s|
    ensures s[j] in Select(s, crossed, false) <==> !crossed[j]
    ensures crossed[j] ==> s[j] in AddAll(linked, Select(s, crossed, true))
  {
    SelectMember(s, crossed, false, j);
    SelectMember(s, crossed, true, j);
  }
}
