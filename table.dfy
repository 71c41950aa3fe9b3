/** The allocation table: free-slot search, chains, freeing and linking. */
module Table {
  import opened Layout

  /** Walking a table: `t[b]` is FAT_FREE, FAT_EOF or the next block after `b`. */
  datatype Option<T> = None | Some(value: T)

  /** Lowest index at or after `from` whose entry is FREE, or -1. */
  function LowestFree(t: seq<I16>, from: nat): (r: int)
    ensures r == -1 || from <= r < |t|
    ensures r >= 0 ==> t[r] == FAT_FREE && forall j :: from <= j < r ==> t[j] != FAT_FREE
    ensures r == -1 <==> forall j :: from <= j < |t| ==> t[j] != FAT_FREE
    decreases |t| - from
  {
    if from >= |t| then -1
    else if t[from] == FAT_FREE then from
    else LowestFree(t, from + 1)
  }

  /** The linear scan of the code: the first FREE slot from `from` upward. */
  method ScanFree(fat: array<I16>, from: nat) returns (r: int)
    ensures r == LowestFree(fat[..], from)
  {
    var i := from;
    while i < fat.Length
      invariant from <= i
      invariant forall j :: from <= j < i && j < fat.Length ==> fat[j] != FAT_FREE
    {
      if fat[i] == FAT_FREE {
        return i;
      }
      i := i + 1;
    }
    return -1;
  }

  predicate Distinct(c: seq<nat>) {
    forall i, j :: 0 <= i < j < |c| ==> c[i] != c[j]
  }

  /** The blocks visited from `b` until an EOF entry, within `fuel` steps, following
      each entry as the index of the next block, as the code's loops do. A FREE entry
      (0) therefore leads to block 0. None when the walk leaves the table or runs out
      of fuel. */
  function Walk(t: seq<I16>, b: int, fuel: nat): (w: Option<seq<nat>>)
    ensures w.Some? ==> |w.value| >= 1 && w.value[0] == b && |w.value| <= fuel
    decreases fuel
  {
    if fuel == 0 || b < 0 || b >= |t| then None
    else if t[b] == FAT_EOF then Some([b])
    else
      match Walk(t, t[b], fuel - 1)
      case None => None
      case Some(c) => Some([b] + c)
  }

  /** The walk from `b` ends at an EOF entry without leaving the table. One step per
      block is enough: a walk that ends at all ends within that many (WalkEnds). */
  predicate ChainOk(t: seq<I16>, b: int) {
    Walk(t, b, |t|).Some?
  }

  /** The sequence `c` is a walk of `t`: each block's entry is the next block, and the
      last block's entry is EOF. */
  ghost predicate Follows(t: seq<I16>, c: seq<nat>) {
    |c| >= 1 &&
    (forall k :: 0 <= k < |c| ==> c[k] < |t|) &&
    (forall k :: 0 <= k < |c| - 1 ==> t[c[k]] == c[k + 1]) &&
    t[c[|c| - 1]] == FAT_EOF
  }

  lemma {:induction false} WalkShape(t: seq<I16>, b: int, fuel: nat)
    requires Walk(t, b, fuel).Some?
    ensures Follows(t, Walk(t, b, fuel).value)
    decreases fuel
  {
    if t[b] != FAT_EOF {
      WalkShape(t, t[b], fuel - 1);
    }
  }

  /** Two positions of a walk that hold the same block are followed by the same blocks. */
  lemma {:induction false} FollowsShift(t: seq<I16>, c: seq<nat>, i: nat, j: nat, m: nat)
    requires Follows(t, c) && i < j && j + m < |c|
    ensures c[i] == c[j] ==> c[i + m] == c[j + m]
    decreases m
  {
    if m > 0 {
      FollowsShift(t, c, i, j, m - 1);
    }
  }

  /** A walk that ends never visits a block twice: after a repeat it would go round
      for ever instead of reaching EOF. */
  lemma {:induction false} FollowsDistinct(t: seq<I16>, c: seq<nat>)
    requires Follows(t, c)
    ensures Distinct(c)
  {
    forall i, j | 0 <= i < j < |c|
      ensures c[i] != c[j]
    {
      var m := |c| - 1 - j;
      FollowsShift(t, c, i, j, m);
      assert t[c[i + m]] == c[i + m + 1] >= 0;
      assert t[c[j + m]] == FAT_EOF;
    }
  }

  /** A walk that ended is found again with exactly as much fuel as it has blocks. */
  lemma {:induction false} WalkExact(t: seq<I16>, b: int, fuel: nat)
    requires Walk(t, b, fuel).Some?
    ensures Walk(t, b, |Walk(t, b, fuel).value|) == Walk(t, b, fuel)
    decreases fuel
  {
    if t[b] != FAT_EOF {
      WalkExact(t, t[b], fuel - 1);
    }
  }

  /** The chain from `b`, first block first. */
  function Chain(t: seq<I16>, b: int): (c: seq<nat>)
    requires ChainOk(t, b)
    ensures |c| >= 1 && c[0] == b && Distinct(c) && |c| <= |t|
    ensures forall k :: 0 <= k < |c| ==> c[k] < |t|
    ensures forall k :: 0 <= k < |c| - 1 ==> t[c[k]] == c[k + 1]
    ensures t[c[|c| - 1]] == FAT_EOF
  {
    WalkShape(t, b, |t|);
    FollowsDistinct(t, Walk(t, b, |t|).value);
    Walk(t, b, |t|).value
  }

  function Last(c: seq<nat>): nat
    requires |c| > 0
  {
    c[|c| - 1]
  }

  /** More fuel does not change a walk that already ended. */
  lemma {:induction false} WalkFuel(t: seq<I16>, b: int, f: nat, g: nat)
    requires Walk(t, b, f).Some? && f <= g
    ensures Walk(t, b, g) == Walk(t, b, f)
    decreases f
  {
    if t[b] != FAT_EOF {
      WalkFuel(t, t[b], f - 1, g - 1);
    }
  }

  /** Pigeonhole: distinct block indices below `n` number at most `n`. */
  lemma {:induction false} DistinctBound(c: seq<nat>, n: nat)
    requires Distinct(c) && forall k :: 0 <= k < |c| ==> c[k] < n
    ensures |c| <= n
    decreases n
  {
    if |c| > 0 {
      assert 0 <= c[0] < n;
      if i :| 0 <= i < |c| && c[i] == n - 1 {
        var d := c[..i] + c[i + 1..];
        assert forall k :: 0 <= k < |d| ==> d[k] == (if k < i then c[k] else c[k + 1]);
        DistinctBound(d, n - 1);
      } else {
        DistinctBound(c, n - 1);
      }
    }
  }

  /** ChainOk excludes only walks that never end: a walk that ends with any fuel is
      a chain, and it is the same walk. */
  lemma {:induction false} WalkEnds(t: seq<I16>, b: int, fuel: nat)
    requires Walk(t, b, fuel).Some?
    ensures ChainOk(t, b) && Chain(t, b) == Walk(t, b, fuel).value
  {
    var c := Walk(t, b, fuel).value;
    WalkShape(t, b, fuel);
    FollowsDistinct(t, c);
    DistinctBound(c, |t|);
    WalkExact(t, b, fuel);
    WalkFuel(t, b, |c|, |t|);
  }

  /** Changing an entry off the walk does not change the walk. */
  lemma {:induction false} WalkFrame(t: seq<I16>, b: int, fuel: nat, x: nat, y: I16)
    requires Walk(t, b, fuel).Some? && x < |t| && x !in Walk(t, b, fuel).value
    ensures Walk(t[x := y], b, fuel) == Walk(t, b, fuel)
    decreases fuel
  {
    if t[b] != FAT_EOF {
      WalkFrame(t, t[b], fuel - 1, x, y);
    }
  }

  /** A chain is unaffected by changing an entry that is not on it. */
  lemma {:induction false} ChainFrame(t: seq<I16>, b: int, x: nat, y: I16)
    requires ChainOk(t, b) && x < |t| && x !in Chain(t, b)
    ensures ChainOk(t[x := y], b) && Chain(t[x := y], b) == Chain(t, b)
  {
    WalkFrame(t, b, |t|, x, y);
  }

  lemma {:induction false} WalkCut(t: seq<I16>, b: int, fuel: nat, x: nat)
    requires Walk(t, b, fuel).Some? && x < |t|
    ensures var w := Walk(t[x := FAT_EOF], b, fuel);
      w.Some? && forall y :: y in w.value ==> y in Walk(t, b, fuel).value
    decreases fuel
  {
    if b != x && t[b] != FAT_EOF {
      WalkCut(t, t[b], fuel - 1, x);
    }
  }

  /** Marking any block EOF keeps every chain a chain, and one made of the old chain's
      blocks: the walk stops at that block at the latest. */
  lemma {:induction false} ChainCut(t: seq<I16>, b: int, x: nat)
    requires ChainOk(t, b) && x < |t|
    ensures ChainOk(t[x := FAT_EOF], b)
    ensures forall y :: y in Chain(t[x := FAT_EOF], b) ==> y in Chain(t, b)
  {
    WalkCut(t, b, |t|, x);
  }

  /** A chain is its first block followed by the chain from the block it links to. */
  lemma {:induction false} ChainTail(t: seq<I16>, b: int)
    requires ChainOk(t, b) && t[b] != FAT_EOF
    ensures ChainOk(t, t[b]) && Chain(t, b) == [b] + Chain(t, t[b])
  {
    WalkEnds(t, t[b], |t| - 1);
  }

  /** Every block of the chain has an allocated (non-FREE) entry: no step of the walk
      goes through a FREE entry to block 0. */
  ghost predicate UsedChain(t: seq<I16>, b: int) {
    ChainOk(t, b) && forall x :: x in Chain(t, b) ==> t[x] != FAT_FREE
  }

  /** Re-linking the EOF block of a chain to a FREE block `n` off the chain that
      becomes EOF extends the chain by exactly `n`. */
  lemma {:induction false} ChainExtend(t: seq<I16>, h: int, n: nat)
    requires ChainOk(t, h) && 0 < n < |t| <= 0x8000 && t[n] == FAT_FREE && n !in Chain(t, h)
    ensures var c := Chain(t, h);
      var u := t[n := FAT_EOF][Last(c) := n as I16];
      ChainOk(u, h) && Chain(u, h) == c + [n]
  {
    var c := Chain(t, h);
    var u := t[n := FAT_EOF][Last(c) := n as I16];
    var e := c + [n];
    ExtendWalk(t, u, c, 0, n);
    assert e[0..] == e;
    WalkEnds(u, h, |e|);
  }

  lemma {:induction false} ExtendWalk(t: seq<I16>, u: seq<I16>, c: seq<nat>, k: nat, n: nat)
    requires |c| >= 1 && k < |c| && 0 < n < |t| == |u| && n !in c
    requires forall j :: 0 <= j < |c| ==> c[j] < |t|
    requires forall j :: 0 <= j < |c| - 1 ==> t[c[j]] == c[j + 1]
    requires forall j :: 0 <= j < |c| - 1 ==> u[c[j]] == t[c[j]]
    requires u[c[|c| - 1]] == n && u[n] == FAT_EOF
    ensures Walk(u, c[k], |c| - k + 1) == Some((c + [n])[k..])
    decreases |c| - k
  {
    if k < |c| - 1 {
      ExtendWalk(t, u, c, k + 1, n);
      assert u[c[k]] == c[k + 1];
      assert (c + [n])[k..] == [c[k]] + (c + [n])[k + 1..];
    } else {
      assert u[c[k]] == n;
      assert Walk(u, n, 1) == Some([n]);
      assert (c + [n])[k..] == [c[k]] + [n];
    }
  }

  /** The table after every block of `c` has been set FREE. */
  function Freed(t: seq<I16>, c: seq<nat>): (r: seq<I16>)
    ensures |r| == |t|
    ensures forall i :: 0 <= i < |t| ==> r[i] == (if i in c then FAT_FREE else t[i])
  {
    seq(|t|, (i: int) requires 0 <= i < |t| => if i in c then FAT_FREE else t[i])
  }

  /** The allocated (non-FREE) entries of a table. */
  function UsedBlocks(t: seq<I16>): set<nat> {
    set i: nat | i < |t| && t[i] != FAT_FREE
  }

  /** Freeing an allocated entry leaves strictly fewer allocated entries. */
  lemma {:induction false} UsedShrinks(t: seq<I16>, i: nat)
    requires i < |t| && t[i] != FAT_FREE
    ensures UsedBlocks(t[i := FAT_FREE]) < UsedBlocks(t)
  {
    assert i in UsedBlocks(t) && i !in UsedBlocks(t[i := FAT_FREE]);
  }

  /** rm's loop ends from `cur` without indexing off the table. The loop reads the entry
      of `cur`, sets it FREE and goes on with what it read, so a block revisited after
      being freed leads to block 0; it runs for ever only once it reaches block 0 while
      block 0's entry is FREE. */
  predicate FreeEnds(t: seq<I16>, cur: int)
    decreases UsedBlocks(t), if cur == 0 then 0 else 1
  {
    cur == FAT_EOF ||
    (0 <= cur < |t| &&
     if t[cur] == FAT_FREE then cur != 0 && FreeEnds(t, 0)
     else UsedShrinks(t, cur); FreeEnds(t[cur := FAT_FREE], t[cur]))
  }

  /** The table that rm's loop leaves when it starts at `cur`. */
  function FreeLoop(t: seq<I16>, cur: int): (r: seq<I16>)
    requires FreeEnds(t, cur)
    ensures |r| == |t|
    ensures forall i :: 0 <= i < |t| ==> r[i] == t[i] || r[i] == FAT_FREE
    decreases UsedBlocks(t), if cur == 0 then 0 else 1
  {
    if cur == FAT_EOF then t
    else if t[cur] == FAT_FREE then FreeLoop(t, 0)
    else
      UsedShrinks(t, cur);
      FreeLoop(t[cur := FAT_FREE], t[cur])
  }

  /** On a chain, rm's loop frees exactly the chain's blocks. */
  lemma {:induction false} ChainFreed(t: seq<I16>, b: int)
    requires ChainOk(t, b)
    ensures FreeEnds(t, b) && FreeLoop(t, b) == Freed(t, Chain(t, b))
  {
    var c := Chain(t, b);
    assert Freed(t, c[..0]) == t;
    FreeAlong(t, c, 0);
  }

  lemma {:induction false} FreeAlong(t: seq<I16>, c: seq<nat>, k: nat)
    requires Follows(t, c) && Distinct(c) && k < |c|
    ensures FreeEnds(Freed(t, c[..k]), c[k]) && FreeLoop(Freed(t, c[..k]), c[k]) == Freed(t, c)
    decreases |c| - k
  {
    var tk := Freed(t, c[..k]);
    assert c[k] !in c[..k];
    assert tk[c[k]] == t[c[k]];
    assert c[..k + 1] == c[..k] + [c[k]];
    if k == |c| - 1 {
      assert c[..k + 1] == c;
      assert tk[c[k] := FAT_FREE] == Freed(t, c);
    } else if t[c[k]] == FAT_FREE {
      assert c[k + 1] == t[c[k]] == 0 && c[k] != c[k + 1];
      assert Freed(t, c[..k + 1]) == tk;
      FreeAlong(t, c, k + 1);
    } else {
      assert tk[c[k] := FAT_FREE] == Freed(t, c[..k + 1]);
      FreeAlong(t, c, k + 1);
      UsedShrinks(tk, c[k]);
    }
  }

  /** The code's linking loop: each listed block points at the next, the last is EOF. */
  function LinkChain(t: seq<I16>, bs: seq<nat>): (r: seq<I16>)
    requires |t| <= 0x8000 && forall i :: 0 <= i < |bs| ==> bs[i] < |t|
    ensures |r| == |t|
    ensures forall x :: 0 <= x < |t| && x !in bs ==> r[x] == t[x]
    ensures |bs| > 0 ==> r[bs[|bs| - 1]] == FAT_EOF
    decreases |bs|
  {
    if |bs| == 0 then t
    else if |bs| == 1 then t[bs[0] := FAT_EOF]
    else LinkChain(t[bs[0] := bs[1] as I16], bs[1..])
  }

  /** Linking a list that names one block `b` over and over leaves only `b -> EOF`. */
  lemma {:induction false} LinkChainCollapse(t: seq<I16>, bs: seq<nat>, b: nat)
    requires b < |t| <= 0x8000 && |bs| >= 1
    requires forall i :: 0 <= i < |bs| ==> bs[i] == b
    ensures LinkChain(t, bs) == t[b := FAT_EOF]
    decreases |bs|
  {
    if |bs| > 1 {
      LinkChainCollapse(t[b := b as I16], bs[1..], b);
      assert t[b := b as I16][b := FAT_EOF] == t[b := FAT_EOF];
    }
  }

  /** Linking distinct blocks makes each one point at the next. */
  lemma {:induction false} LinkChainDistinct(t: seq<I16>, bs: seq<nat>)
    requires |t| <= 0x8000 && forall i :: 0 <= i < |bs| ==> bs[i] < |t|
    requires Distinct(bs)
    ensures var r := LinkChain(t, bs);
      forall k :: 0 <= k < |bs| - 1 ==> r[bs[k]] == bs[k + 1]
    decreases |bs|
  {
    if |bs| > 1 {
      var t1 := t[bs[0] := bs[1] as I16];
      LinkChainDistinct(t1, bs[1..]);
      var r := LinkChain(t, bs);
      assert r == LinkChain(t1, bs[1..]);
      forall k | 0 <= k < |bs| - 1
        ensures r[bs[k]] == bs[k + 1]
      {
        if k > 0 {
          assert bs[1..][k - 1] == bs[k];
        } else {
          assert bs[0] !in bs[1..];
        }
      }
    }
  }
}
