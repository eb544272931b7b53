/** When the loop of run (tools/import_foods.js:54-74) calls `commit()` and what each call
    delivers, as functions of the sequence of writes staged so far and the capacity B (400 in
    the source). The loop keeps one batch for the whole run, so every commit delivers all
    writes staged up to that moment; Chunks is the fresh-batch-per-commit alternative. */
module Batching {

  // ---------------------------------------------------------------------------------------
  // Euclidean division facts, proved once

  lemma MulAtLeast(d: int, B: int)
    requires d >= 1 && B > 0
    ensures d * B >= B
  {
  }

  /** x / B and x % B are the only quotient and remainder of x. */
  lemma DivModUnique(x: int, q: int, r: int, B: int)
    requires B > 0 && 0 <= r < B && x == q * B + r
    ensures x / B == q && x % B == r
  {
    var q', r' := x / B, x % B;
    assert x == q' * B + r' && 0 <= r' < B;
    if q > q' { MulAtLeast(q - q', B); assert false; }
    if q < q' { MulAtLeast(q' - q, B); assert false; }
  }

  /** How the quotient and remainder change from n - 1 to n. */
  lemma DivModStep(n: nat, B: nat)
    requires B > 0 && n > 0
    ensures n % B == 0 ==> (n - 1) / B + 1 == n / B && (n / B) * B == n
    ensures n % B != 0 ==> (n - 1) / B == n / B && (n - 1) % B == n % B - 1
  {
    var q, r := n / B, n % B;
    assert n == q * B + r;
    if r == 0 {
      DivModUnique(n - 1, q - 1, B - 1, B);
    } else {
      DivModUnique(n - 1, q, r - 1, B);
    }
  }

  /** n / B + (1 if B does not divide n) is the ceiling of n / B. */
  lemma CeilDiv(n: nat, B: nat)
    requires B > 0
    ensures n / B + (if n % B != 0 then 1 else 0) == (n + B - 1) / B
  {
    var q, r := n / B, n % B;
    assert n == q * B + r;
    if r == 0 {
      DivModUnique(n + B - 1, q, B - 1, B);
    } else {
      DivModUnique(n + B - 1, q + 1, r - 1, B);
    }
  }

  // ---------------------------------------------------------------------------------------
  // The commits of the source's loop

  /** The `commit()` calls made inside the loop (lines 64-66) while the writes ws are staged
      one by one: after the n-th write, a commit exactly when n % B == 0, delivering the batch
      as it then stands, which is all of ws[..n]. */
  function InLoopCommits<T>(ws: seq<T>, B: nat): (r: seq<seq<T>>)
    requires B > 0
    ensures ws != [] && |ws| % B == 0 ==> r != [] && r[|r| - 1] == ws
  {
    if ws == [] then []
    else InLoopCommits(ws[..|ws| - 1], B) + (if |ws| % B == 0 then [ws] else [])
  }

  /** Up to the capacity, the count is a multiple of B only when it equals B. */
  lemma ReachesCapacity(n: nat, B: nat)
    requires 0 < n <= B
    ensures n % B == 0 <==> n == B
  {
    if n < B {
      DivModUnique(n, 0, n, B);
    } else {
      DivModUnique(n, 1, 0, B);
    }
  }

  /** One more staged write adds one commit exactly when the count reaches a multiple of B. */
  lemma InLoopCommitsAppend<T>(ws: seq<T>, w: T, B: nat)
    requires B > 0
    ensures InLoopCommits(ws + [w], B) ==
      InLoopCommits(ws, B) + (if (|ws| + 1) % B == 0 then [ws + [w]] else [])
  {
    assert (ws + [w])[..|ws|] == ws;
  }

  /** Every `commit()` call of a run that staged ws: the in-loop ones, then (lines 69-71) one
      more when the loop finished and the count is not a multiple of B. */
  function CommitLog<T>(ws: seq<T>, B: nat, finished: bool): (r: seq<seq<T>>)
    requires B > 0
    ensures !finished ==> r == InLoopCommits(ws, B)
    ensures finished && ws != [] ==> r != [] && r[|r| - 1] == ws
  {
    InLoopCommits(ws, B) + (if finished && |ws| % B != 0 then [ws] else [])
  }

  /** The loop makes |ws| / B commits (floor division). */
  lemma {:induction false} InLoopCommitCount<T>(ws: seq<T>, B: nat)
    requires B > 0
    ensures |InLoopCommits(ws, B)| == |ws| / B
  {
    if ws != [] {
      InLoopCommitCount(ws[..|ws| - 1], B);
      DivModStep(|ws|, B);
    }
  }

  /** The k-th in-loop commit is made at count (k + 1) B and delivers the first (k + 1) B
      writes. */
  lemma {:induction false} InLoopCommitAt<T>(ws: seq<T>, B: nat, k: nat)
    requires B > 0 && k < |ws| / B
    ensures (k + 1) * B <= |ws| && |InLoopCommits(ws, B)| == |ws| / B
    ensures InLoopCommits(ws, B)[k] == ws[..(k + 1) * B]
  {
    var n := |ws|;
    var p := ws[..n - 1];
    var c := InLoopCommits(p, B);
    var m := (k + 1) * B;
    CommitIndexStep(n, B, k);
    assert InLoopCommits(ws, B) == c + (if n % B == 0 then [ws] else []);
    assert |c| == (n - 1) / B by { InLoopCommitCount(p, B); }
    if k < (n - 1) / B {
      assert c[k] == p[..m] by { InLoopCommitAt(p, B, k); }
      PrefixOfPrefix(ws, n - 1, m);
    } else {
      assert ws[..m] == ws;
    }
    InLoopCommitCount(ws, B);
  }

  /** The arithmetic of one step of InLoopCommitAt: the k-th commit, k < n / B, is either
      among the commits of the first n - 1 writes or is the commit made at count n. */
  lemma CommitIndexStep(n: nat, B: nat, k: nat)
    requires B > 0 && k < n / B
    ensures n > 0 && (k + 1) * B <= n
    ensures k < (n - 1) / B ==> (k + 1) * B <= n - 1
    ensures k >= (n - 1) / B ==> n % B == 0 && k == (n - 1) / B && (k + 1) * B == n
  {
    BelowQuotient(k, n, B);
    MulAtLeast(k + 1, B);
    DivModStep(n, B);
    if k < (n - 1) / B {
      BelowQuotient(k, n - 1, B);
    }
  }

  /** Below the quotient x / B, whole multiples of B still fit into x. */
  lemma BelowQuotient(k: nat, x: nat, B: nat)
    requires B > 0 && k < x / B
    ensures (k + 1) * B <= x
  {
    var q := x / B;
    assert q * B <= x;
    assert q * B == (k + 1) * B + (q - k - 1) * B;
  }

  /** A prefix of a prefix of ws is a prefix of ws. */
  lemma PrefixOfPrefix<T>(ws: seq<T>, n: nat, m: nat)
    requires m <= n <= |ws|
    ensures ws[..n][..m] == ws[..m]
  {
  }

  /** The in-loop commits are made at counts B, 2B, ..., (|ws| / B) B: there are |ws| / B of
      them and the k-th delivers the prefix of ws of length (k + 1) B. */
  lemma InLoopCommitsClosedForm<T>(ws: seq<T>, B: nat)
    requires B > 0
    ensures |InLoopCommits(ws, B)| == |ws| / B
    ensures forall k :: 0 <= k < |ws| / B ==>
      InLoopCommits(ws, B)[k] <= ws && |InLoopCommits(ws, B)[k]| == (k + 1) * B
  {
    InLoopCommitCount(ws, B);
    forall k | 0 <= k < |ws| / B
      ensures InLoopCommits(ws, B)[k] <= ws && |InLoopCommits(ws, B)[k]| == (k + 1) * B
    {
      InLoopCommitAt(ws, B, k);
    }
  }

  /** The loop commits after the n-th write exactly when n is a positive multiple of B. */
  lemma InLoopCommitPoints<T>(ws: seq<T>, B: nat, n: nat)
    requires B > 0 && 0 < n <= |ws|
    ensures ws[..n] in InLoopCommits(ws, B) <==> n % B == 0
  {
    if n % B == 0 {
      CommitAtMultiple(ws, B, n);
    }
    if ws[..n] in InLoopCommits(ws, B) {
      CommitOnlyAtMultiple(ws, B, n);
    }
  }

  /** At a positive multiple of B the loop commits the prefix written so far. */
  lemma CommitAtMultiple<T>(ws: seq<T>, B: nat, n: nat)
    requires B > 0 && 0 < n <= |ws| && n % B == 0
    ensures ws[..n] in InLoopCommits(ws, B)
  {
    var k := n / B - 1;
    DivModUnique(n, k + 1, 0, B);
    DivModUnique(|ws|, |ws| / B, |ws| % B, B);
    if k >= |ws| / B {
      MulAtLeast(k + 1 - |ws| / B, B);
      assert false;
    }
    InLoopCommitAt(ws, B, k);
  }

  /** Every prefix the loop commits has a multiple of B writes. */
  lemma CommitOnlyAtMultiple<T>(ws: seq<T>, B: nat, n: nat)
    requires B > 0 && 0 < n <= |ws| && ws[..n] in InLoopCommits(ws, B)
    ensures n % B == 0
  {
    InLoopCommitCount(ws, B);
    var c := InLoopCommits(ws, B);
    var k :| 0 <= k < |c| && c[k] == ws[..n];
    InLoopCommitAt(ws, B, k);
    DivModUnique(n, k + 1, 0, B);
  }

  /** A run that finishes commits ceil(|ws| / B) times; one stopped by an exception commits
      |ws| / B times. */
  lemma CommitCount<T>(ws: seq<T>, B: nat)
    requires B > 0
    ensures |CommitLog(ws, B, true)| == (|ws| + B - 1) / B
    ensures |CommitLog(ws, B, false)| == |ws| / B
  {
    InLoopCommitsClosedForm(ws, B);
    CeilDiv(|ws|, B);
  }

  /** No commit delivers an empty batch, and when the run finishes with at least one write the
      last commit delivers every write. */
  lemma {:induction false} FinalCommitCarriesEverything<T>(ws: seq<T>, B: nat, finished: bool)
    requires B > 0
    ensures forall k :: 0 <= k < |CommitLog(ws, B, finished)| ==> CommitLog(ws, B, finished)[k] != []
    ensures finished && ws != [] ==> CommitLog(ws, B, true)[|CommitLog(ws, B, true)| - 1] == ws
  {
    InLoopCommitsClosedForm(ws, B);
    var c := CommitLog(ws, B, finished);
    forall k | 0 <= k < |c| ensures c[k] != [] {
      if k < |ws| / B {
        MulAtLeast(k + 1, B);
        assert |c[k]| == (k + 1) * B;
      }
    }
  }

  /** No commits are made exactly when fewer than B writes were staged and either the run
      stopped early or there was nothing to stage. */
  lemma NoCommits<T>(ws: seq<T>, B: nat, finished: bool)
    requires B > 0
    ensures CommitLog(ws, B, finished) == [] <==> |ws| < B && (!finished || ws == [])
  {
    InLoopCommitsClosedForm(ws, B);
    if |ws| < B {
      DivModUnique(|ws|, 0, |ws|, B);
    } else {
      DivModUnique(|ws|, |ws| / B, |ws| % B, B);
      if |ws| / B == 0 { assert false; }
    }
  }

  /** At most B writes: one commit delivers all of them (none when there are none). */
  lemma SingleCommitCarriesAll<T>(ws: seq<T>, B: nat)
    requires B > 0 && |ws| <= B
    ensures CommitLog(ws, B, true) == (if ws == [] then [] else [ws])
  {
    InLoopCommitsClosedForm(ws, B);
    if |ws| == B {
      DivModUnique(|ws|, 1, 0, B);
      assert ws[..B] == ws;
    } else {
      DivModUnique(|ws|, 0, |ws|, B);
    }
    assert InLoopCommits(ws, B) == (if |ws| == B then [ws] else []);
  }

  /** B + 1 writes: the loop commits the batch at count B, then the final commit is made on the
      same batch, so it delivers the first B writes a second time along with the last one. */
  lemma ReusedBatchRecommits<T>(ws: seq<T>, B: nat)
    requires B > 0 && |ws| == B + 1
    ensures CommitLog(ws, B, true) == [ws[..B], ws]
  {
    if B == 1 {
      DivModUnique(B + 1, 2, 0, B);
      InLoopCommitAt(ws, B, 0);
      InLoopCommitAt(ws, B, 1);
      assert ws[..2] == ws;
    } else {
      DivModUnique(B + 1, 1, 1, B);
      InLoopCommitAt(ws, B, 0);
    }
  }

  // ---------------------------------------------------------------------------------------
  // One fresh batch per commit

  /** ws cut into consecutive pieces of B, the last one possibly shorter: what the commits
      deliver when a fresh batch is started after each commit. */
  function Chunks<T>(ws: seq<T>, B: nat): (r: seq<seq<T>>)
    requires B > 0
    ensures forall k :: 0 <= k < |r| ==> 0 < |r[k]| <= B
    ensures ws == [] <==> r == []
    decreases |ws|
  {
    if ws == [] then []
    else if |ws| <= B then [ws]
    else [ws[..B]] + Chunks(ws[B..], B)
  }

  function Flatten<T>(ss: seq<seq<T>>): seq<T> {
    if ss == [] then [] else ss[0] + Flatten(ss[1..])
  }

  /** The longest prefix of ws made of whole chunks of B: what a run stopped by an exception
      has delivered when a fresh batch follows every commit. */
  function WholeChunks<T>(ws: seq<T>, B: nat): (r: seq<T>)
    requires B > 0
    ensures r <= ws && |r| % B == 0 && |ws| - |r| < B
  {
    DivModUnique(|ws| - |ws| % B, |ws| / B, 0, B);
    ws[..|ws| - |ws| % B]
  }

  /** q B + r writes with 0 <= r < B: q full chunks of B and, when r > 0, one last chunk of
      the r writes that remain. */
  lemma {:induction false} ChunksShape<T>(ws: seq<T>, B: nat, q: nat, r: nat)
    requires B > 0 && r < B && |ws| == q * B + r
    ensures |Chunks(ws, B)| == q + (if r > 0 then 1 else 0)
    ensures forall k :: 0 <= k < q ==> |Chunks(ws, B)[k]| == B
    ensures r > 0 ==> Chunks(ws, B)[q] == ws[q * B..]
  {
    if q == 0 {
      if r > 0 { assert ws[0 * B..] == ws; }
    } else if q == 1 && r == 0 {
      assert Chunks(ws, B) == [ws];
    } else {
      assert |ws| > B by { MulAtLeast(q, B); }
      var rest := ws[B..];
      assert |rest| == (q - 1) * B + r;
      ChunksShape(rest, B, q - 1, r);
      var c := Chunks(ws, B);
      assert c == [ws[..B]] + Chunks(rest, B);
      forall k | 0 <= k < q ensures |c[k]| == B {
        if k > 0 { assert c[k] == Chunks(rest, B)[k - 1]; }
      }
      if r > 0 {
        assert c[q] == Chunks(rest, B)[q - 1];
        assert rest[(q - 1) * B..] == ws[q * B..];
      }
    }
  }

  /** The chunks, put back together in order, are ws. */
  lemma {:induction false} FlattenChunks<T>(ws: seq<T>, B: nat)
    requires B > 0
    ensures Flatten(Chunks(ws, B)) == ws
    decreases |ws|
  {
    if |ws| > B {
      FlattenChunks(ws[B..], B);
      var c := Chunks(ws, B);
      assert c[1..] == Chunks(ws[B..], B);
      assert Flatten(c) == ws[..B] + ws[B..];
      assert ws[..B] + ws[B..] == ws;
    } else if ws != [] {
      assert Flatten([ws]) == ws + [];
    }
  }

  /** Appending a piece of at most B writes to a whole number of chunks adds one chunk. */
  lemma {:induction false} ChunksAppend<T>(a: seq<T>, c: seq<T>, B: nat)
    requires B > 0 && |a| % B == 0 && 0 < |c| <= B
    ensures Chunks(a + c, B) == Chunks(a, B) + [c]
    decreases |a|
  {
    if a == [] {
      assert a + c == c;
    } else {
      DivModUnique(|a|, |a| / B, 0, B);
      assert |a| >= B by { MulAtLeast(|a| / B, B); }
      assert (a + c)[..B] == a[..B];
      assert (a + c)[B..] == a[B..] + c;
      DivModUnique(|a| - B, |a| / B - 1, 0, B);
      ChunksAppend(a[B..], c, B);
      if |a| == B {
        assert a[B..] == [];
        assert a[..B] == a;
      }
    }
  }

  /** With fresh batches the commits are ceil(|ws| / B) chunks of at most B writes each. */
  lemma ChunksCount<T>(ws: seq<T>, B: nat)
    requires B > 0
    ensures |Chunks(ws, B)| == (|ws| + B - 1) / B
    ensures Flatten(Chunks(ws, B)) == ws
  {
    var q, r := |ws| / B, |ws| % B;
    assert |ws| == q * B + r;
    ChunksShape(ws, B, q, r);
    FlattenChunks(ws, B);
    CeilDiv(|ws|, B);
  }

  /** The two loops agree while the count stays within one batch: both commit once, with all
      the writes, when there are at most B of them; past B the reused batch re-delivers. */
  lemma SmallRunsAgree<T>(ws: seq<T>, B: nat)
    requires B > 0 && |ws| <= B
    ensures CommitLog(ws, B, true) == Chunks(ws, B)
  {
    SingleCommitCarriesAll(ws, B);
  }
}
