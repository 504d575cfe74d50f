/** The Money tree as the sequence of leaves appended so far, and plain replay of coin rows. */
module Replay {
  import opened Chain

  type Rows = map<nat, seq<Coin>>
  type Tree = seq<Coin>

  /** The dummy zero leaf every Money tree starts with. */
  const SENTINEL: Tree := [0]

  function Row(rows: Rows, k: nat): seq<Coin> {
    if k in rows then rows[k] else []
  }

  /** Coins of heights lo, ..., hi, ascending. */
  function Between(rows: Rows, lo: nat, hi: int): seq<Coin>
    decreases hi - lo
  {
    if hi < lo then [] else Between(rows, lo, hi - 1) + Row(rows, hi)
  }

  /** The tree obtained by replaying every height up to `h` from the sentinel. */
  function Leaves(rows: Rows, h: int): Tree {
    SENTINEL + Between(rows, 0, h)
  }

  /** `a` and `b` hold the same coins at every height of [lo, hi]. */
  ghost predicate AgreeOn(a: Rows, b: Rows, lo: nat, hi: int) {
    forall k :: lo <= k <= hi ==> Row(a, k) == Row(b, k)
  }

  lemma {:induction false} BetweenSplit(rows: Rows, lo: nat, mid: int, hi: int)
    requires lo - 1 <= mid <= hi
    ensures Between(rows, lo, hi) == Between(rows, lo, mid) + Between(rows, mid + 1, hi)
    decreases hi - mid
  {
    if mid < hi {
      BetweenSplit(rows, lo, mid, hi - 1);
    }
  }

  lemma LeavesSplit(rows: Rows, mid: int, hi: int)
    requires -1 <= mid <= hi
    ensures Leaves(rows, hi) == Leaves(rows, mid) + Between(rows, mid + 1, hi)
  {
    BetweenSplit(rows, 0, mid, hi);
  }

  lemma {:induction false} BetweenAgree(a: Rows, b: Rows, lo: nat, hi: int)
    requires AgreeOn(a, b, lo, hi)
    ensures Between(a, lo, hi) == Between(b, lo, hi)
    decreases hi - lo
  {
    if lo <= hi {
      BetweenAgree(a, b, lo, hi - 1);
    }
  }

  lemma {:induction false} BetweenEmpty(rows: Rows, lo: nat, hi: int)
    requires forall k :: lo <= k <= hi ==> Row(rows, k) == []
    ensures Between(rows, lo, hi) == []
    decreases hi - lo
  {
    if lo <= hi {
      BetweenEmpty(rows, lo, hi - 1);
    }
  }

  /** Losing rows can only shorten the replay, and losing one that holds a coin does. */
  lemma {:induction false} BetweenLost(part: Rows, full: Rows, lo: nat, hi: int)
    requires forall k :: lo <= k <= hi ==> Row(part, k) == Row(full, k) || Row(part, k) == []
    ensures |Between(part, lo, hi)| <= |Between(full, lo, hi)|
    ensures !AgreeOn(part, full, lo, hi) ==> |Between(part, lo, hi)| < |Between(full, lo, hi)|
    decreases hi - lo
  {
    if lo <= hi {
      BetweenLost(part, full, lo, hi - 1);
    }
  }

  /** The coin rows of [lo, hi] as a range scan returns them. */
  function Scan(rows: Rows, lo: nat, hi: int): (r: seq<(nat, seq<Coin>)>)
    ensures forall i :: 0 <= i < |r| ==> lo <= r[i].0 <= hi
    decreases hi - lo
  {
    if hi < lo then [] else Scan(rows, lo, hi - 1) + (if hi in rows then [(hi, rows[hi])] else [])
  }

  function Flatten(scan: seq<(nat, seq<Coin>)>): seq<Coin> {
    if scan == [] then [] else Flatten(scan[..|scan| - 1]) + scan[|scan| - 1].1
  }

  lemma FlattenSnoc(scan: seq<(nat, seq<Coin>)>, row: (nat, seq<Coin>))
    ensures Flatten(scan + [row]) == Flatten(scan) + row.1
  {
  }

  lemma {:induction false} FlattenScan(rows: Rows, lo: nat, hi: int)
    ensures Flatten(Scan(rows, lo, hi)) == Between(rows, lo, hi)
    decreases hi - lo
  {
    if lo <= hi {
      FlattenScan(rows, lo, hi - 1);
      var below := Scan(rows, lo, hi - 1);
      if hi in rows {
        FlattenSnoc(below, (hi, rows[hi]));
      } else {
        assert Scan(rows, lo, hi) == below;
      }
    }
  }

  /** A scan splits at `mid` into the rows at or below it and the rows above it. */
  lemma {:induction false} ScanSplit(rows: Rows, lo: nat, mid: int, hi: int)
    requires lo - 1 <= mid <= hi
    ensures Scan(rows, lo, hi) == Scan(rows, lo, mid) + Scan(rows, mid + 1, hi)
    decreases hi - mid
  {
    if mid < hi {
      ScanSplit(rows, lo, mid, hi - 1);
    }
  }
}
