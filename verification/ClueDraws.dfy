/** Every sparse ternary polynomial is drawn by some stream, and a stream draws one polynomial only. */
module ClueDraws {
  import opened Ring
  import opened Clue

  /** The stream that gives these draws from `start` on. */
  function Fed(list: seq<nat>, start: nat): Draws {
    (k: nat) => if start <= k < start + |list| then list[k - start] else 0
  }

  /** `i` steps read the draws before start + 2i and no other. */
  lemma {:induction false} ShuffleReadsBefore(n: nat, d: Draws, d': Draws, start: nat, i: nat)
    requires i <= n && forall k: nat :: start <= k < start + 2 * i ==> d(k) == d'(k)
    ensures Shuffled(n, d, start, i) == Shuffled(n, d', start, i)
  {
    hide Swapped, Below;
    if i > 0 {
      ShuffleReadsBefore(n, d, d', start, i - 1);
      assert d(start + 2 * (i - 1)) == d'(start + 2 * (i - 1));
    }
  }

  /** Distinct indices below `n`. */
  ghost predicate Distinct(places: seq<nat>, n: nat) {
    && (forall k :: 0 <= k < |places| ==> places[k] < n)
    && (forall k, m :: 0 <= k < m < |places| ==> places[k] != places[m])
  }

  /** The draws in `list` choose `places` in this order and give them these signs. */
  ghost predicate Feeds(list: seq<nat>, n: nat, places: seq<nat>, units: seq<int>, start: nat)
    requires |places| <= n && |units| == |places|
  {
    && |list| == 2 * |places| && (forall k :: 0 <= k < |list| ==> list[k] <= n)
    && Chosen(n, Fed(list, start), start, |places|) == places
    && forall k :: 0 <= k < |places| ==> Sign(list[2 * k + 1]) == units[k]
  }

  /** A place that is not chosen yet is somewhere at or behind position `i` of the index array. */
  lemma PlaceIsLeft(v: seq<nat>, i: nat, place: nat) returns (j: nat)
    requires Permutes(v) && i <= |v| && place < |v| && place !in v[..i]
    ensures i <= j < |v| && v[j] == place
  {
    assert place in v;
    assert forall k :: 0 <= k < i ==> v[k] in v[..i];
    j :| 0 <= j < |v| && v[j] == place;
  }

  lemma SwappedIn(v: seq<nat>, i: nat, j: nat)
    requires i <= j < |v|
    ensures Swapped(v, i, j)[..i + 1] == v[..i] + [v[j]]
  {
  }

  function UnitDraw(unit: int): (draw: nat)
    ensures draw <= 1
    ensures unit == 1 || unit == -1 ==> Sign(draw) == unit
  {
    if unit == 1 then 0 else 1
  }

  /** Two more draws choose one more place. */
  lemma FeedOne(list: seq<nat>, n: nat, places: seq<nat>, start: nat, place: nat, draw: nat) returns (more: seq<nat>)
    requires |list| == 2 * |places| && |places| < n && place < n && place !in places
    requires Chosen(n, Fed(list, start), start, |places|) == places
    ensures |more| == |list| + 2 && more[..|list|] == list && more[|list|] < n && more[|list| + 1] == draw
    ensures Chosen(n, Fed(more, start), start, |places| + 1) == places + [place]
  {
    hide Shuffled, Swapped, Permutes, Sign, Below;
    var i := |places|;
    var v := Shuffled(n, Fed(list, start), start, i);
    ShufflePermutes(n, Fed(list, start), start, i);
    var j := PlaceIsLeft(v, i, place);
    more := list + [j - i, draw];
    ShuffleReadsBefore(n, Fed(list, start), Fed(more, start), start, i);
    NextShuffled(n, Fed(more, start), start, i);
    assert Below(j - i, n - i) == j - i by { BelowIsDraw(j - i, n - i); }
    SwappedIn(v, i, j);
  }

  lemma BelowIsDraw(draw: nat, m: nat)
    requires draw < m
    ensures Below(draw, m) == draw
  {
  }

  /** Whatever distinct places and signs are wanted, in whatever order, some draws give them. */
  lemma {:induction false} EveryChoiceIsFed(n: nat, places: seq<nat>, units: seq<int>, start: nat)
      returns (list: seq<nat>)
    requires Distinct(places, n) && |places| == |units| && |places| <= n
    requires forall k :: 0 <= k < |units| ==> units[k] == 1 || units[k] == -1
    ensures Feeds(list, n, places, units, start)
    decreases |places|
  {
    if places == [] {
      list := [];
    } else {
      var last := |places| - 1;
      DistinctBefore(places, n);
      var before := EveryChoiceIsFed(n, places[..last], units[..last], start);
      list := FeedLast(before, n, places, units, start);
    }
  }

  lemma DistinctBefore(places: seq<nat>, n: nat)
    requires Distinct(places, n) && places != []
    ensures Distinct(places[..|places| - 1], n) && places[|places| - 1] !in places[..|places| - 1]
  {
  }

  lemma FeedLast(before: seq<nat>, n: nat, places: seq<nat>, units: seq<int>, start: nat) returns (list: seq<nat>)
    requires places != [] && Distinct(places, n) && |places| == |units| && |places| <= n
    requires Feeds(before, n, places[..|places| - 1], units[..|units| - 1], start)
    requires units[|units| - 1] == 1 || units[|units| - 1] == -1
    ensures Feeds(list, n, places, units, start)
  {
    hide Chosen, Sign, UnitDraw, Fed;
    var last := |places| - 1;
    DistinctBefore(places, n);
    list := FeedOne(before, n, places[..last], start, places[last], UnitDraw(units[last]));
    assert places[..last] + [places[last]] == places;
    SignsGrow(before, list, units);
    DrawsStaySmall(before, list, n);
  }

  lemma DrawsStaySmall(before: seq<nat>, list: seq<nat>, n: nat)
    requires n > 0 && |list| == |before| + 2 && list[..|before|] == before
    requires list[|before|] < n && list[|before| + 1] <= 1
    requires forall k :: 0 <= k < |before| ==> before[k] <= n
    ensures forall k :: 0 <= k < |list| ==> list[k] <= n
  {
    assert forall k :: 0 <= k < |before| ==> list[k] == list[..|before|][k];
  }

  lemma SignsGrow(before: seq<nat>, list: seq<nat>, units: seq<int>)
    requires units != [] && |before| == 2 * (|units| - 1) && |list| == |before| + 2 && list[..|before|] == before
    requires forall k :: 0 <= k < |units| - 1 ==> Sign(before[2 * k + 1]) == units[..|units| - 1][k]
    requires Sign(list[|before| + 1]) == units[|units| - 1]
    ensures forall k :: 0 <= k < |units| ==> Sign(list[2 * k + 1]) == units[k]
  {
    hide Sign;
    forall k | 0 <= k < |units| ensures Sign(list[2 * k + 1]) == units[k] {
      if k < |units| - 1 {
        assert list[2 * k + 1] == list[..|before|][2 * k + 1];
        assert Sign(before[2 * k + 1]) == units[..|units| - 1][k];
      }
    }
  }

  /** Where the non-zero coefficients are, in rising order. */
  function Places(c: Poly): (places: seq<nat>) {
    if c == [] then [] else
      var rest := Places(c[..|c| - 1]);
      if c[|c| - 1] != 0 then rest + [|c| - 1] else rest
  }

  lemma {:induction false} PlacesAre(c: Poly)
    ensures Distinct(Places(c), |c|) && |Places(c)| == NonZeros(c)
    ensures forall m: nat :: m < |c| ==> (m in Places(c) <==> c[m] != 0)
  {
    if c != [] {
      var n := |c| - 1;
      PlacesAre(c[..n]);
      NonZerosAtEnd(c[..n], c[n]);
      assert c == c[..n] + [c[n]];
      forall m: nat | m < |c| ensures m in Places(c) <==> c[m] != 0 {
        assert m < n ==> c[..n][m] == c[m];
      }
    }
  }

  lemma {:induction false} NonZerosAtEnd(c: Poly, x: int)
    ensures NonZeros(c + [x]) == NonZeros(c) + if x != 0 then 1 else 0
  {
    if c != [] {
      NonZerosAtEnd(c[1..], x);
      assert (c + [x])[1..] == c[1..] + [x];
    } else {
      assert [x][1..] == [];
    }
  }

  lemma {:induction false} NonZerosAtMost(c: Poly)
    ensures NonZeros(c) <= |c|
  {
    if c != [] {
      NonZerosAtMost(c[1..]);
    }
  }

  /** Every ternary polynomial comes from some draws, none above its length: no choice of places and signs is out of
      reach of the shuffle. */
  lemma EveryTernaryIsDrawn(c: Poly, start: nat) returns (draws: Draws)
    requires Ternary(c)
    ensures NonZeros(c) <= |c| && Signs(c, Chosen(|c|, draws, start, NonZeros(c)), draws, start)
    ensures forall k: nat :: draws(k) <= |c|
  {
    NonZerosAtMost(c);
    PlacesAre(c);
    var places := Places(c);
    var units: seq<int> := seq(|places|, k requires 0 <= k < |places| => c[places[k]]);
    hide Places, NonZeros, Chosen, Sign;
    var list := EveryChoiceIsFed(|c|, places, units, start);
    draws := Fed(list, start);
    FedSigns(c, places, units, list, start);
  }

  lemma FedSigns(c: Poly, places: seq<nat>, units: seq<int>, list: seq<nat>, start: nat)
    requires Distinct(places, |c|) && |places| == |units| && |places| <= |c| && Feeds(list, |c|, places, units, start)
    requires forall k :: 0 <= k < |places| ==> units[k] == c[places[k]]
    requires forall m: nat :: m < |c| ==> (m in places <==> c[m] != 0)
    ensures Signs(c, places, Fed(list, start), start)
  {
    hide Sign, Chosen;
    forall k | 0 <= k < |places| ensures c[places[k]] == Sign(Fed(list, start)(start + 2 * k + 1)) {
      assert Sign(list[2 * k + 1]) == units[k];
    }
  }

  /** The chosen places and the sign draws fix the polynomial. */
  lemma SignsFixIt(c: Poly, d: Poly, chosen: seq<nat>, draws: Draws, start: nat)
    requires |c| == |d| && Signs(c, chosen, draws, start) && Signs(d, chosen, draws, start)
    ensures c == d
  {
    hide Sign;
    forall m: nat | m < |c| ensures c[m] == d[m] {
      if m in chosen {
        var k :| 0 <= k < |chosen| && chosen[k] == m;
        assert c[chosen[k]] == d[chosen[k]];
      }
    }
  }

  /** Three places, two steps, draws 1, 0, 1, 1: place 1 gets a plus, then the last place gets a minus. */
  lemma SmallDraw(c: Poly)
    requires |c| == 3
    ensures var draws := Fed([1, 0, 1, 1], 0);
            Signs(c, Chosen(3, draws, 0, 2), draws, 0) <==> c == [0, 1, -1]
  {
    var draws := Fed([1, 0, 1, 1], 0);
    var first: seq<nat> := Shuffled(3, draws, 0, 1);
    assert Shuffled(3, draws, 0, 0) == [0, 1, 2];
    assert first == [1, 0, 2];
    assert Shuffled(3, draws, 0, 2) == [1, 2, 0];
    var chosen := Chosen(3, draws, 0, 2);
    assert chosen == [1, 2] && 0 !in chosen;
    if Signs(c, chosen, draws, 0) {
      assert c[chosen[0]] == 1 && c[chosen[1]] == -1 && c[0] == 0;
    }
  }
}
