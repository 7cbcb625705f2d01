/** Small facts about sequences and block indexing that the other modules
    use to keep their own proofs short. */
module SeqLemmas {
  /** Peeling the last element off the second operand of a concatenation. */
  lemma SplitLast<T>(p: seq<T>, s: seq<T>)
    requires s != []
    ensures p + s == (p + s[..|s| - 1]) + [s[|s| - 1]]
  {
    assert s == s[..|s| - 1] + [s[|s| - 1]];
  }

  lemma Reassociate<T>(x: seq<T>, y: seq<T>, z: seq<T>)
    ensures x + y + z == x + (y + z)
  {
  }

  /** Appending `c` to the last piece of `pre + [x]`. */
  lemma ExtendLast<T>(pre: seq<seq<T>>, x: seq<T>, c: T)
    ensures var q := pre + [x];
            q[..|q| - 1] + [q[|q| - 1] + [c]] == pre + [x + [c]]
  {
    var q := pre + [x];
    assert q[..|q| - 1] == pre;
  }

  /** Two first occurrences of the same value are the same position. */
  lemma FirstIndexUnique<T>(xs: seq<T>, x: T, i: nat, p: nat)
    requires i < |xs| && p < |xs| && xs[i] == x && xs[p] == x
    requires x !in xs[..i] && x !in xs[..p]
    ensures i == p
  {
  }

  lemma MulSucc(m: nat, n: nat)
    ensures (m + 1) * n == m * n + n
  {
  }

  /** Indexing `m` blocks of `n` followed by one more block of `n`. */
  lemma BlockIndex<T>(front: seq<T>, block: seq<T>, m: nat, n: nat, s: nat, j: nat)
    requires |front| == m * n && |block| == n && s <= m && j < n
    ensures s * n + j < |front + block|
    ensures s < m ==> s * n + j < |front| && (front + block)[s * n + j] == front[s * n + j]
    ensures s == m ==> (front + block)[s * n + j] == block[j]
  {
    if s < m {
      assert (s + 1) * n <= m * n;
    }
  }
}
