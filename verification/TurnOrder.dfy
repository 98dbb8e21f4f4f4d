/** The order in which the weighted round robin hands out the remainder, read off its input.

    Turn by turn the cursor goes through the sorted list. In turn c an entry gets one more replica if
    it had room for more than c of them, leaves the list if it had room for exactly c, and is gone
    if it had room for fewer. */
module TurnOrder {
  import opened Sums

  /** What an entry with this room has after n turns. */
  function Got(room: int, n: int): int {
    if room < n then room else n
  }

  function GotAll(rooms: seq<int>, c: nat, m: nat): (r: seq<int>)
    ensures |r| == |rooms|
    ensures forall i :: 0 <= i < |r| ==> r[i] == Got(rooms[i], if i < m then c + 1 else c)
  {
    seq(|rooms|, i requires 0 <= i < |rooms| => Got(rooms[i], if i < m then c + 1 else c))
  }

  /** How many replicas are out when turn c is through with the first m entries. */
  function Out(rooms: seq<int>, c: nat, m: nat): int {
    Sum(GotAll(rooms, c, m))
  }

  /** The last of `rest` replicas goes to entry p in turn c. */
  predicate IsLast(rooms: seq<int>, rest: int, c: nat, p: nat) {
    p < |rooms| && rooms[p] > c && Out(rooms, c, p + 1) == rest
  }

  /** One replica more than `rest` would go to entry q in turn d. */
  predicate IsNext(rooms: seq<int>, rest: int, d: nat, q: nat) {
    q < |rooms| && rooms[q] > d && Out(rooms, d, q) == rest
  }

  predicate NotAfter(c: nat, m: nat, d: nat, q: nat) {
    c < d || (c == d && m <= q)
  }

  /** The entries on the list that the cursor meets from entry m in turn c to entry q in turn d. */
  function Met(rooms: seq<int>, c: nat, m: nat, d: nat, q: nat): (r: seq<nat>)
    requires m <= |rooms| && q < |rooms| && NotAfter(c, m, d, q)
    ensures r != [] && forall i :: 0 <= i < |r| ==> r[i] < |rooms|
    decreases d - c, |rooms| - m
  {
    if c == d && m == q then [q]
    else if m == |rooms| then Met(rooms, c + 1, 0, d, q)
    else (if rooms[m] >= c then [m] else []) + Met(rooms, c, m + 1, d, q)
  }

  /** `at` tells each entry's position in the policy list. These entries stand there one behind the
      other, from position `from` on. */
  predicate InOrder(at: seq<nat>, entries: seq<nat>, from: nat)
    requires forall i :: 0 <= i < |entries| ==> entries[i] < |at|
  {
    entries == [] || (at[entries[0]] >= from && InOrder(at, entries[1..], at[entries[0]] + 1))
  }

  /** The sweep that gives out the last replica comes upon another policy with room: all that
      the cursor meets from the one to the other is listed in that order. */
  ghost predicate ServesTooMany(rooms: seq<int>, at: seq<nat>, rest: int)
    requires |at| == |rooms|
  {
    exists c: nat, p: nat, d: nat, q: nat ::
      && IsLast(rooms, rest, c, p) && IsNext(rooms, rest, d, q)
      && NotAfter(c, p, d, q) && InOrder(at, Met(rooms, c, p, d, q), 0)
  }

  // ---------- counting ----------

  lemma OutStep(rooms: seq<int>, c: nat, m: nat)
    requires m < |rooms|
    ensures Out(rooms, c, m + 1) == Out(rooms, c, m) + if rooms[m] > c then 1 else 0
  {
    var now, next := GotAll(rooms, c, m), GotAll(rooms, c, m + 1);
    assert next == now[m := next[m]];
    SumUpdate(now, m, next[m]);
  }

  lemma OutNextTurn(rooms: seq<int>, c: nat)
    ensures Out(rooms, c, |rooms|) == Out(rooms, c + 1, 0)
  {
    assert GotAll(rooms, c, |rooms|) == GotAll(rooms, c + 1, 0);
  }

  lemma OutMonotone(rooms: seq<int>, c: nat, m: nat, d: nat, q: nat)
    requires m <= |rooms| && NotAfter(c, m, d, q)
    ensures Out(rooms, c, m) <= Out(rooms, d, q)
  {
    SumMonotone(GotAll(rooms, c, m), GotAll(rooms, d, q));
  }

  /** No two entries get the same replica. */
  lemma LastIsOne(rooms: seq<int>, rest: int, c: nat, p: nat, d: nat, q: nat)
    requires IsLast(rooms, rest, c, p) && IsLast(rooms, rest, d, q)
    ensures c == d && p == q
  {
    OutStep(rooms, c, p);
    OutStep(rooms, d, q);
    if c < d || (c == d && p < q) {
      OutMonotone(rooms, c, p + 1, d, q);
    } else if d < c || (c == d && q < p) {
      OutMonotone(rooms, d, q + 1, c, p);
    }
  }

  lemma NextIsOne(rooms: seq<int>, rest: int, c: nat, p: nat, d: nat, q: nat)
    requires IsNext(rooms, rest, c, p) && IsNext(rooms, rest, d, q)
    ensures c == d && p == q
  {
    OutStep(rooms, c, p);
    OutStep(rooms, d, q);
    LastIsOne(rooms, rest + 1, c, p, d, q);
  }

  lemma {:induction false} AtMostSum(rooms: seq<int>, i: nat)
    requires i < |rooms| && forall k :: 0 <= k < |rooms| ==> rooms[k] >= 0
    ensures rooms[i] <= Sum(rooms) && Sum(rooms) >= 0
  {
    if i > 0 {
      AtMostSum(rooms[1..], i - 1);
    } else if |rooms| > 1 {
      AtMostSum(rooms[1..], 0);
    }
  }

  lemma {:induction false} NoneNegative(s: seq<int>)
    requires forall i :: 0 <= i < |s| ==> s[i] == 0
    ensures Sum(s) == 0
  {
    if s != [] {
      NoneNegative(s[1..]);
    }
  }

  /** At first nothing is out, and never more than fits. */
  lemma OutBounds(rooms: seq<int>, c: nat, m: nat)
    requires m <= |rooms| && forall i :: 0 <= i < |rooms| ==> rooms[i] >= 0
    ensures 0 == Out(rooms, 0, 0) <= Out(rooms, c, m) <= Sum(rooms)
  {
    NoneNegative(GotAll(rooms, 0, 0));
    OutMonotone(rooms, 0, 0, c, m);
    SumMonotone(GotAll(rooms, c, m), rooms);
  }

  // ---------- who is met next ----------

  /** From entry m in turn c the cursor comes upon an entry with room, all met listed in order from `from` on. */
  ghost predicate Awaits(rooms: seq<int>, at: seq<nat>, c: nat, m: nat, from: nat)
    requires |at| == |rooms| && m <= |rooms|
  {
    exists d: nat, q: nat ::
      IsNext(rooms, Out(rooms, c, m), d, q) && NotAfter(c, m, d, q) && InOrder(at, Met(rooms, c, m, d, q), from)
  }

  lemma AwaitsNextTurn(rooms: seq<int>, at: seq<nat>, c: nat, from: nat)
    requires |at| == |rooms|
    ensures Awaits(rooms, at, c, |rooms|, from) <==> Awaits(rooms, at, c + 1, 0, from)
  {
    OutNextTurn(rooms, c);
    var rest := Out(rooms, c + 1, 0);
    forall d: nat, q: nat | IsNext(rooms, rest, d, q)
      ensures NotAfter(c, |rooms|, d, q) <==> NotAfter(c + 1, 0, d, q)
      ensures NotAfter(c + 1, 0, d, q) ==> Met(rooms, c, |rooms|, d, q) == Met(rooms, c + 1, 0, d, q)
    {
    }
  }

  lemma AwaitsGone(rooms: seq<int>, at: seq<nat>, c: nat, m: nat, from: nat)
    requires |at| == |rooms| && m < |rooms| && rooms[m] < c
    ensures Awaits(rooms, at, c, m, from) <==> Awaits(rooms, at, c, m + 1, from)
  {
    OutStep(rooms, c, m);
    forall d: nat, q: nat | IsNext(rooms, Out(rooms, c, m), d, q)
      ensures NotAfter(c, m, d, q) <==> NotAfter(c, m + 1, d, q)
      ensures NotAfter(c, m, d, q) ==> Met(rooms, c, m, d, q) == Met(rooms, c, m + 1, d, q)
    {
    }
  }

  lemma AwaitsFull(rooms: seq<int>, at: seq<nat>, c: nat, m: nat, from: nat)
    requires |at| == |rooms| && m < |rooms| && rooms[m] == c
    ensures Awaits(rooms, at, c, m, from) <==> at[m] >= from && Awaits(rooms, at, c, m + 1, at[m] + 1)
  {
    OutStep(rooms, c, m);
    forall d: nat, q: nat | IsNext(rooms, Out(rooms, c, m), d, q)
      ensures NotAfter(c, m, d, q) <==> NotAfter(c, m + 1, d, q)
      ensures NotAfter(c, m, d, q) ==>
        InOrder(at, Met(rooms, c, m, d, q), from)
          == (at[m] >= from && InOrder(at, Met(rooms, c, m + 1, d, q), at[m] + 1))
    {
      if NotAfter(c, m, d, q) {
        var tail := Met(rooms, c, m + 1, d, q);
        assert Met(rooms, c, m, d, q) == [m] + tail && ([m] + tail)[1..] == tail;
      }
    }
  }

  lemma AwaitsServed(rooms: seq<int>, at: seq<nat>, c: nat, m: nat, from: nat)
    requires |at| == |rooms| && m < |rooms| && rooms[m] > c
    ensures Awaits(rooms, at, c, m, from) <==> at[m] >= from
  {
    assert IsNext(rooms, Out(rooms, c, m), c, m) && Met(rooms, c, m, c, m) == [m] && [m][1..] == [];
    assert InOrder(at, [m], from) <==> at[m] >= from;
    assert NotAfter(c, m, c, m);
    forall d: nat, q: nat | IsNext(rooms, Out(rooms, c, m), d, q) ensures d == c && q == m {
      NextIsOne(rooms, Out(rooms, c, m), c, m, d, q);
    }
  }

  lemma AwaitsOther(rooms: seq<int>, at: seq<nat>, c: nat, m: nat, from: nat)
    requires |at| == |rooms| && m < |rooms| && rooms[m] >= c && at[m] != from
    ensures Awaits(rooms, at, c, m, from) <==> Awaits(rooms, at, c, m, from + 1)
  {
    if rooms[m] > c {
      AwaitsServed(rooms, at, c, m, from);
      AwaitsServed(rooms, at, c, m, from + 1);
    } else {
      AwaitsFull(rooms, at, c, m, from);
      AwaitsFull(rooms, at, c, m, from + 1);
    }
  }

  /** Behind the last replica given. */
  lemma TooManyAwaits(rooms: seq<int>, at: seq<nat>, rest: int, c: nat, p: nat)
    requires |at| == |rooms| && IsLast(rooms, rest, c, p)
    ensures ServesTooMany(rooms, at, rest) <==> Awaits(rooms, at, c, p + 1, at[p] + 1)
  {
    OutStep(rooms, c, p);
    forall d: nat, q: nat | IsNext(rooms, rest, d, q)
      ensures NotAfter(c, p, d, q) <==> NotAfter(c, p + 1, d, q)
      ensures NotAfter(c, p, d, q) ==>
        InOrder(at, Met(rooms, c, p, d, q), 0) == InOrder(at, Met(rooms, c, p + 1, d, q), at[p] + 1)
    {
      if NotAfter(c, p, d, q) {
        var tail := Met(rooms, c, p + 1, d, q);
        assert Met(rooms, c, p, d, q) == [p] + tail && ([p] + tail)[1..] == tail;
      }
    }
    forall d: nat, q: nat | IsLast(rooms, rest, d, q) ensures d == c && q == p {
      LastIsOne(rooms, rest, c, p, d, q);
    }
  }

  // ---------- special cases ----------

  lemma {:induction false} OutFirstTurn(rooms: seq<int>, m: nat)
    requires m <= |rooms| && forall i :: 0 <= i < |rooms| ==> rooms[i] > 0
    ensures Out(rooms, 0, m) == m
  {
    if m == 0 {
      OutBounds(rooms, 0, 0);
    } else {
      OutFirstTurn(rooms, m - 1);
      OutStep(rooms, 0, m - 1);
    }
  }

  /** When everybody has room and fewer are left over than there are entries, the last one goes to
      entry `rest` - 1 in the first turn, and the one behind it would be next. */
  lemma FirstTurnExact(rooms: seq<int>, at: seq<nat>, rest: nat)
    requires |at| == |rooms| > rest && forall i :: 0 <= i < |rooms| ==> rooms[i] > 0
    ensures ServesTooMany(rooms, at, rest) <==> rest > 0 && at[rest - 1] < at[rest]
  {
    if rest == 0 {
      NobodyServed(rooms, at);
    } else {
      OutFirstTurn(rooms, rest);
      TooManyAwaits(rooms, at, rest, 0, rest - 1);
      AwaitsServed(rooms, at, 0, rest, at[rest - 1] + 1);
    }
  }

  lemma NobodyServed(rooms: seq<int>, at: seq<nat>)
    requires |at| == |rooms| && forall i :: 0 <= i < |rooms| ==> rooms[i] >= 0
    ensures !ServesTooMany(rooms, at, 0)
  {
    forall c: nat, p: nat | p < |rooms| && rooms[p] > c ensures !IsLast(rooms, 0, c, p) {
      OutBounds(rooms, c, p);
      OutStep(rooms, c, p);
    }
  }

  /** The last replica is not the last one of its turn. */
  ghost predicate EndsMidTurn(rooms: seq<int>, rest: int) {
    exists c: nat, p: nat, q: nat :: IsLast(rooms, rest, c, p) && IsNext(rooms, rest, c, q)
  }

  predicate Sorted(at: seq<nat>) {
    forall i, j :: 0 <= i < j < |at| ==> at[i] < at[j]
  }

  /** Within a turn the entries are met in the order of the list. */
  lemma {:induction false} MetInTurn(rooms: seq<int>, at: seq<nat>, c: nat, m: nat, q: nat, from: nat)
    requires |at| == |rooms| && Sorted(at) && m <= q < |rooms| && from <= at[m]
    ensures InOrder(at, Met(rooms, c, m, c, q), from)
    decreases q - m
  {
    if m == q {
      assert Met(rooms, c, m, c, q) == [q] && [q][1..] == [];
    } else {
      var tail := Met(rooms, c, m + 1, c, q);
      assert at[m] < at[m + 1];
      MetInTurn(rooms, at, c, m + 1, q, if rooms[m] >= c then at[m] + 1 else from);
      if rooms[m] >= c {
        FirstInOrder(at, m, tail, from);
        assert Met(rooms, c, m, c, q) == [m] + tail;
      } else {
        assert Met(rooms, c, m, c, q) == [] + tail == tail;
      }
    }
  }

  lemma FirstInOrder(at: seq<nat>, first: nat, tail: seq<nat>, from: nat)
    requires first < |at| && forall i :: 0 <= i < |tail| ==> tail[i] < |at|
    ensures InOrder(at, [first] + tail, from) == (at[first] >= from && InOrder(at, tail, at[first] + 1))
  {
    assert ([first] + tail)[1..] == tail;
  }

  /** Everything in order is from `from` on. */
  lemma {:induction false} LastInOrder(at: seq<nat>, entries: seq<nat>, from: nat)
    requires (forall i :: 0 <= i < |entries| ==> entries[i] < |at|) && InOrder(at, entries, from) && entries != []
    ensures at[entries[|entries| - 1]] >= from
  {
    if |entries| > 1 {
      LastInOrder(at, entries[1..], at[entries[0]] + 1);
    }
  }

  lemma {:induction false} MetEnds(rooms: seq<int>, c: nat, m: nat, d: nat, q: nat)
    requires m <= |rooms| && q < |rooms| && NotAfter(c, m, d, q)
    ensures var met := Met(rooms, c, m, d, q); met[|met| - 1] == q
    decreases d - c, |rooms| - m
  {
    if c == d && m == q {
    } else if m == |rooms| {
      MetEnds(rooms, c + 1, 0, d, q);
    } else {
      MetEnds(rooms, c, m + 1, d, q);
      var met, rest := Met(rooms, c, m, d, q), Met(rooms, c, m + 1, d, q);
      assert met[|met| - 1] == rest[|rest| - 1];
    }
  }

  /** Nobody behind the last one of a turn comes next in a later one. */
  lemma NextIsInFront(rooms: seq<int>, rest: int, c: nat, p: nat, d: nat, q: nat)
    requires IsLast(rooms, rest, c, p) && IsNext(rooms, rest, d, q) && NotAfter(c, p, d, q) && d > c
    ensures q <= p
  {
    if q > p {
      OutStep(rooms, c, q);
      OutMonotone(rooms, c, p + 1, c, q);
      OutMonotone(rooms, c, q + 1, d, q);
    }
  }

  /** With the policies listed heaviest first, as sorted, it goes wrong unless a turn ends with the remainder. */
  lemma SortedExact(rooms: seq<int>, at: seq<nat>, rest: int)
    requires |at| == |rooms| && Sorted(at)
    ensures ServesTooMany(rooms, at, rest) <==> EndsMidTurn(rooms, rest)
  {
    forall c: nat, p: nat, d: nat, q: nat | IsLast(rooms, rest, c, p) && IsNext(rooms, rest, d, q)
      ensures NotAfter(c, p, d, q)
      ensures InOrder(at, Met(rooms, c, p, d, q), 0) <==> c == d
    {
      LastBeforeNext(rooms, rest, c, p, d, q);
      if c == d {
        MetInTurn(rooms, at, c, p, q, 0);
      } else {
        LaterTurnIsNotInOrder(rooms, at, rest, c, p, d, q);
      }
    }
    if EndsMidTurn(rooms, rest) {
      var c: nat, p: nat, q: nat :| IsLast(rooms, rest, c, p) && IsNext(rooms, rest, c, q);
      assert NotAfter(c, p, c, q) && InOrder(at, Met(rooms, c, p, c, q), 0);
    }
  }

  lemma LastBeforeNext(rooms: seq<int>, rest: int, c: nat, p: nat, d: nat, q: nat)
    requires IsLast(rooms, rest, c, p) && IsNext(rooms, rest, d, q)
    ensures NotAfter(c, p + 1, d, q)
  {
    OutStep(rooms, c, p);
    if !NotAfter(c, p + 1, d, q) {
      OutMonotone(rooms, d, q, c, p);
    }
  }

  lemma LaterTurnIsNotInOrder(rooms: seq<int>, at: seq<nat>, rest: int, c: nat, p: nat, d: nat, q: nat)
    requires |at| == |rooms| && Sorted(at)
    requires IsLast(rooms, rest, c, p) && IsNext(rooms, rest, d, q) && NotAfter(c, p + 1, d, q) && d > c
    ensures !InOrder(at, Met(rooms, c, p, d, q), 0)
  {
    NextIsInFront(rooms, rest, c, p, d, q);
    var tail := Met(rooms, c, p + 1, d, q);
    assert ([p] + tail)[1..] == tail;
    MetEnds(rooms, c, p + 1, d, q);
    if InOrder(at, tail, at[p] + 1) {
      LastInOrder(at, tail, at[p] + 1);
    }
  }
}
