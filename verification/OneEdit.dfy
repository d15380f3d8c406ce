/** The typo-tolerant word matcher used by collection search (over runes) and, as a second copy of
    the same loop, by audit target search (over UTF-16 units). The matcher is a single greedy
    two-pointer scan; its specification is the declarative notion of one edit. */
module OneEdit {

  /** `b` is `a` with one element removed. */
  ghost predicate Deletion<T>(a: seq<T>, b: seq<T>) {
    exists k :: 0 <= k < |a| && b == a[..k] + a[k + 1..]
  }

  /** `b` is `a` with one element replaced. */
  ghost predicate Substitution<T>(a: seq<T>, b: seq<T>) {
    |a| == |b| && exists k :: 0 <= k < |a| && a[..k] == b[..k] && a[k + 1..] == b[k + 1..]
  }

  /** `b` is `a` with two neighbours exchanged. */
  ghost predicate Transposition<T>(a: seq<T>, b: seq<T>) {
    |a| == |b| && exists k: nat :: Swapped(a, b, k) && a[..k] == b[..k] && a[k + 2..] == b[k + 2..]
  }

  ghost predicate Swapped<T>(a: seq<T>, b: seq<T>, p: nat) {
    p + 1 < |a| && p + 1 < |b| && a[p] == b[p + 1] && a[p + 1] == b[p]
  }

  /** Equal, or apart by one insertion, deletion, substitution or adjacent transposition. */
  ghost predicate WithinOne<T>(a: seq<T>, b: seq<T>) {
    a == b || Deletion(a, b) || Deletion(b, a) || Substitution(a, b) || Transposition(a, b)
  }

  /** What remains to be compared once the sequences agree up to `p` and differ at `p`. */
  ghost predicate TailsAgree<T>(a: seq<T>, b: seq<T>, p: nat)
    requires p < |a| && p < |b|
  {
    if |a| > |b| then a[p + 1..] == b[p..]
    else if |b| > |a| then a[p..] == b[p + 1..]
    else a[p + 1..] == b[p + 1..] || (Swapped(a, b, p) && a[p + 2..] == b[p + 2..])
  }

  /** Deleting an element after the first mismatch cannot repair it, and deleting one before it
      only shifts equal elements: the first mismatch is the place to delete. */
  lemma DeletionAtMismatch<T>(a: seq<T>, b: seq<T>, p: nat)
    requires p < |a| && p < |b| && a[..p] == b[..p] && a[p] != b[p]
    ensures Deletion(a, b) <==> |a| == |b| + 1 && a[p + 1..] == b[p..]
  {
    if Deletion(a, b) {
      var k :| 0 <= k < |a| && b == a[..k] + a[k + 1..];
      assert forall m :: 0 <= m < k && m < |b| ==> b[m] == a[m];
      assert a[p + 1..] == b[p..];
    }
    if |a| == |b| + 1 && a[p + 1..] == b[p..] {
      assert b == b[..p] + b[p..] == a[..p] + a[p + 1..];
    }
  }

  lemma SubstitutionAtMismatch<T>(a: seq<T>, b: seq<T>, p: nat)
    requires p < |a| && p < |b| && a[..p] == b[..p] && a[p] != b[p]
    ensures Substitution(a, b) <==> |a| == |b| && a[p + 1..] == b[p + 1..]
  {
    if Substitution(a, b) {
      var k :| 0 <= k < |a| && a[..k] == b[..k] && a[k + 1..] == b[k + 1..];
      assert forall m :: 0 <= m < k ==> a[m] == a[..k][m] == b[..k][m] == b[m];
      assert forall m :: k < m < |a| ==> a[m] == a[k + 1..][m - k - 1] == b[k + 1..][m - k - 1] == b[m];
      assert k == p;
    }
  }

  lemma TranspositionAtMismatch<T>(a: seq<T>, b: seq<T>, p: nat)
    requires p < |a| && p < |b| && a[..p] == b[..p] && a[p] != b[p]
    ensures Transposition(a, b) <==> |a| == |b| && Swapped(a, b, p) && a[p + 2..] == b[p + 2..]
  {
    if Transposition(a, b) {
      var k: nat :| Swapped(a, b, k) && a[..k] == b[..k] && a[k + 2..] == b[k + 2..];
      assert forall m :: 0 <= m < k ==> a[m] == a[..k][m] == b[..k][m] == b[m];
      assert forall m :: k + 2 <= m < |a| ==> a[m] == a[k + 2..][m - k - 2] == b[k + 2..][m - k - 2] == b[m];
      assert forall m :: 0 <= m < p ==> a[m] == a[..p][m] == b[..p][m] == b[m];
      assert k == p;
    }
  }

  /** The key fact: one edit is decided by the tails after the first mismatch. */
  lemma FirstMismatchDecides<T>(a: seq<T>, b: seq<T>, p: nat)
    requires p < |a| && p < |b| && a[..p] == b[..p] && a[p] != b[p]
    requires -1 <= |a| - |b| <= 1
    ensures WithinOne(a, b) <==> TailsAgree(a, b, p)
  {
    DeletionAtMismatch(a, b, p);
    DeletionAtMismatch(b, a, p);
    SubstitutionAtMismatch(a, b, p);
    TranspositionAtMismatch(a, b, p);
  }

  /** Lengths two or more apart are beyond one edit. */
  lemma FarLengths<T>(a: seq<T>, b: seq<T>)
    requires |a| - |b| > 1 || |b| - |a| > 1
    ensures !WithinOne(a, b)
  {
  }

  lemma ExchangeFlips<T>(a: seq<T>, b: seq<T>)
    requires Transposition(a, b)
    ensures Transposition(b, a)
  {
    var k: nat :| Swapped(a, b, k) && a[..k] == b[..k] && a[k + 2..] == b[k + 2..];
    assert Swapped(b, a, k);
  }

  lemma ReplacementFlips<T>(a: seq<T>, b: seq<T>)
    requires Substitution(a, b)
    ensures Substitution(b, a)
  {
    var k :| 0 <= k < |a| && a[..k] == b[..k] && a[k + 1..] == b[k + 1..];
    assert b[..k] == a[..k];
  }

  /** The relation does not care which word is the query and which the candidate. */
  lemma Symmetric<T>(a: seq<T>, b: seq<T>)
    requires WithinOne(a, b)
    ensures WithinOne(b, a)
  {
    if Transposition(a, b) {
      ExchangeFlips(a, b);
    } else if Substitution(a, b) {
      ReplacementFlips(a, b);
    }
  }

  /** The shapes the scan can be in after its single allowed edit at the first mismatch `p`. */
  ghost predicate AfterEdit<T>(a: seq<T>, b: seq<T>, p: nat, i: nat, j: nat)
    requires p < |a| && p < |b| && i <= |a| && j <= |b|
  {
    if |a| > |b| then i == j + 1 && p <= j && a[p + 1..i] == b[p..j]
    else if |b| > |a| then j == i + 1 && p <= i && a[p..i] == b[p + 1..j]
    else if Swapped(a, b, p) then i == j && p + 2 <= i && a[p + 2..i] == b[p + 2..i]
    else i == j && p + 1 <= i && a[p + 1..i] == b[p + 1..i]
  }

  lemma SliceGrows<T>(s: seq<T>, lo: nat, hi: nat)
    requires lo <= hi < |s|
    ensures s[lo..hi + 1] == s[lo..hi] + [s[hi]]
  {
  }

  lemma AfterEditAdvances<T>(a: seq<T>, b: seq<T>, p: nat, i: nat, j: nat)
    requires p < |a| && p < |b| && i < |a| && j < |b| && a[i] == b[j]
    requires AfterEdit(a, b, p, i, j)
    ensures AfterEdit(a, b, p, i + 1, j + 1)
  {
    if |a| > |b| {
      SliceGrows(a, p + 1, i);
      SliceGrows(b, p, j);
    } else if |b| > |a| {
      SliceGrows(a, p, i);
      SliceGrows(b, p + 1, j);
    } else {
      var q := if Swapped(a, b, p) then p + 2 else p + 1;
      SliceGrows(a, q, i);
      SliceGrows(b, q, i);
    }
  }

  /** A second mismatch refutes the tails; running off the end settles them. */
  lemma SecondMismatch<T>(a: seq<T>, b: seq<T>, p: nat, i: nat, j: nat)
    requires p < |a| && p < |b| && a[p] != b[p] && i < |a| && j < |b|
    requires AfterEdit(a, b, p, i, j) && a[i] != b[j]
    ensures !TailsAgree(a, b, p)
  {
    if |a| > |b| {
      assert a[p + 1..][i - p - 1] != b[p..][j - p];
    } else if |b| > |a| {
      assert a[p..][i - p] != b[p + 1..][j - p - 1];
    } else if Swapped(a, b, p) {
      assert a[p + 1..][0] != b[p + 1..][0];
      assert a[p + 2..][i - p - 2] != b[p + 2..][i - p - 2];
    } else {
      assert a[p + 1..][i - p - 1] != b[p + 1..][i - p - 1];
    }
  }

  lemma ScanEnds<T>(a: seq<T>, b: seq<T>, p: nat, i: nat, j: nat)
    requires p < |a| && p < |b| && -1 <= |a| - |b| <= 1 && i <= |a| && j <= |b|
    requires AfterEdit(a, b, p, i, j) && (i == |a| || j == |b|)
    ensures i == |a| && j == |b| && TailsAgree(a, b, p)
  {
    assert a[p..|a|] == a[p..] && b[p..|b|] == b[p..];
    assert a[p + 1..|a|] == a[p + 1..] && b[p + 1..|b|] == b[p + 1..];
    if |a| == |b| && Swapped(a, b, p) {
      assert a[p + 2..|a|] == a[p + 2..] && b[p + 2..|b|] == b[p + 2..];
    }
  }

  /** Without any mismatch the shorter sequence is a prefix of the longer. */
  lemma PrefixIsWithinOne<T>(a: seq<T>, b: seq<T>, i: nat)
    requires -1 <= |a| - |b| <= 1 && i <= |a| && i <= |b| && a[..i] == b[..i] && (i == |a| || i == |b|)
    ensures WithinOne(a, b)
  {
    if |a| > |b| {
      assert b == a[..i] + a[i + 1..];
    } else if |b| > |a| {
      assert a == b[..i] + b[i + 1..];
    } else {
      assert a == a[..i] == b[..i] == b;
    }
  }

  /** `withinOneEdit` and its copy `auditWithinOneEdit`, with their jumps and early exits. */
  method WithinOneEdit<T(==)>(a: seq<T>, b: seq<T>) returns (r: bool)
    ensures r <==> WithinOne(a, b)
  {
    if |a| - |b| > 1 || |b| - |a| > 1 {
      FarLengths(a, b);
      return false;
    }
    var i, j, edits := 0, 0, 0;
    ghost var p := 0;
    while i < |a| && j < |b|
      invariant 0 <= i <= |a| && 0 <= j <= |b| && 0 <= edits <= 1
      invariant edits == 0 ==> i == j && a[..i] == b[..i]
      invariant edits == 1 ==> p < |a| && p < |b| && a[..p] == b[..p] && a[p] != b[p]
      invariant edits == 1 ==> AfterEdit(a, b, p, i, j)
      decreases |a| - i + |b| - j
    {
      if a[i] == b[j] {
        if edits == 1 {
          AfterEditAdvances(a, b, p, i, j);
        }
        i, j := i + 1, j + 1;
        continue;
      }
      edits := edits + 1;
      if edits > 1 {
        SecondMismatch(a, b, p, i, j);
        FirstMismatchDecides(a, b, p);
        return false;
      }
      p := i;
      if |a| == |b| && i + 1 < |a| && j + 1 < |b| && a[i] == b[j + 1] && a[i + 1] == b[j] {
        i, j := i + 2, j + 2;
      } else if |a| > |b| {
        i := i + 1;
      } else if |b| > |a| {
        j := j + 1;
      } else {
        i, j := i + 1, j + 1;
      }
    }
    if edits == 0 {
      PrefixIsWithinOne(a, b, i);
    } else {
      ScanEnds(a, b, p, i, j);
      FirstMismatchDecides(a, b, p);
    }
    r := edits + |a| - i + |b| - j <= 1;
  }
}
