/**
 * The 1-indexed binary min-heap of NewsFeed, stated over the contents of
 * the heap array (slot 0 unused) and the staleness of each headline.
 */
module Heaps {
  /** Slots 1..n lie inside `a` and each holds a headline that has a weight. */
  ghost predicate Weighted<H>(a: seq<H>, n: nat, w: map<H, int>)
  {
    n < |a| && forall i :: 1 <= i <= n ==> a[i] in w
  }

  /** The heap property: no slot in 2..n is lighter than its parent slot i / 2. */
  ghost predicate Ordered<H>(a: seq<H>, n: nat, w: map<H, int>)
    requires Weighted(a, n, w)
  {
    forall i :: 2 <= i <= n ==> w[a[i / 2]] <= w[a[i]]
  }

  /**
   * What sift-up keeps: the heap property holds except between slot c and
   * its parent, and c's parent is no heavier than c's children.
   */
  ghost predicate OrderedExceptUp<H>(a: seq<H>, n: nat, w: map<H, int>, c: nat)
    requires Weighted(a, n, w)
  {
    && (forall i :: 2 <= i <= n && i != c ==> w[a[i / 2]] <= w[a[i]])
    && (2 <= c <= n ==> forall i :: 2 <= i <= n && i / 2 == c ==> w[a[c / 2]] <= w[a[i]])
  }

  /**
   * What sift-down keeps: the heap property holds except between slot p and
   * its children, and p's parent is no heavier than p's children.
   */
  ghost predicate OrderedExceptDown<H>(a: seq<H>, n: nat, w: map<H, int>, p: nat)
    requires Weighted(a, n, w)
  {
    && (forall i :: 2 <= i <= n && i / 2 != p ==> w[a[i / 2]] <= w[a[i]])
    && (2 <= p <= n ==> forall i :: 2 <= i <= n && i / 2 == p ==> w[a[p / 2]] <= w[a[i]])
  }

  /** `b` holds the slots 1..n of `a` in some order and agrees with `a` on every other slot. */
  ghost predicate Permuted<H>(b: seq<H>, a: seq<H>, n: nat)
  {
    && |b| == |a| && n < |a|
    && b[0] == a[0] && b[n + 1..] == a[n + 1..]
    && multiset(b[1..n + 1]) == multiset(a[1..n + 1])
  }

  /** `x` occurs in slots 1..n of `a` at slot c only. */
  ghost predicate OnlyAt<H>(a: seq<H>, n: nat, x: H, c: nat)
  {
    n < |a| && 1 <= c <= n && a[c] == x && forall i :: 1 <= i <= n && i != c ==> a[i] != x
  }
  /** A value found at two positions of a sequence is counted at least twice. */
  lemma Twice<H>(s: seq<H>, i: nat, j: nat)
    requires i < j < |s| && s[i] == s[j]
    ensures multiset(s)[s[i]] >= 2
  {
    assert s == s[..i] + [s[i]] + s[i + 1..j] + [s[j]] + s[j + 1..];
  }

  /** A headline that slots 1..n hold exactly once is, at its slot, the only one. */
  lemma OnlyOnce<H>(a: seq<H>, n: nat, x: H, c: nat)
    requires n < |a| && 1 <= c <= n && a[c] == x && multiset(a[1..n + 1])[x] == 1
    ensures OnlyAt(a, n, x, c)
  {
    var s := a[1..n + 1];
    forall i | 1 <= i <= n && i != c
      ensures a[i] != x
    {
      if a[i] == x {
        assert s[i - 1] == x && s[c - 1] == x;
        if i < c {
          Twice(s, i - 1, c - 1);
        } else {
          Twice(s, c - 1, i - 1);
        }
      }
    }
  }


  /** The root of an ordered heap is no heavier than any slot. */
  lemma {:induction false} RootIsLightest<H>(a: seq<H>, n: nat, w: map<H, int>, i: nat)
    requires Weighted(a, n, w) && Ordered(a, n, w) && 1 <= i <= n
    ensures w[a[1]] <= w[a[i]]
    decreases i
  {
    if i > 1 {
      RootIsLightest(a, n, w, i / 2);
    }
  }

  /**
   * After a dequeue the new root is no lighter than the removed one: the
   * heap `c` left by it holds in slots 1..n headlines of the ordered heap
   * `a` it came from.
   */
  lemma RootNotLighter<H>(a: seq<H>, b: seq<H>, c: seq<H>, n: nat, w: map<H, int>)
    requires Weighted(a, n + 1, w) && Ordered(a, n + 1, w) && n > 0
    requires Permuted(b, a, n + 1) && Permuted(c, b, n)
    ensures c[1] in w && w[a[1]] <= w[c[1]]
  {
    var j := PermutedKeeps(b, c, n, 1);
    var k := PermutedKeeps(a, b, n + 1, j);
    RootIsLightest(a, n + 1, w, k);
  }

  /** A headline strictly lighter than every other one in an ordered heap is at the root. */
  lemma LightestAtRoot<H>(a: seq<H>, n: nat, w: map<H, int>, x: H)
    requires Weighted(a, n, w) && Ordered(a, n, w) && x in multiset(a[1..n + 1])
    requires forall g | g in multiset(a[1..n + 1]) && g != x :: w[x] < w[g]
    ensures a[1] == x
  {
    var k :| 0 <= k < n && a[1..n + 1][k] == x;
    RootIsLightest(a, n, w, k + 1);
    assert a[1..n + 1][0] == a[1];
  }

  /** Where sift-up stops (at the root or below a parent no heavier), the heap is ordered. */
  lemma BubbleDone<H>(a: seq<H>, n: nat, w: map<H, int>, c: nat)
    requires Weighted(a, n, w) && OrderedExceptUp(a, n, w, c) && c <= n
    requires 2 <= c ==> w[a[c / 2]] <= w[a[c]]
    ensures Ordered(a, n, w)
  {
  }

  /** One step of sift-up: swapping a slot lighter than its parent with that parent. */
  lemma BubbleStep<H>(a: seq<H>, n: nat, w: map<H, int>, c: nat)
    requires Weighted(a, n, w) && OrderedExceptUp(a, n, w, c) && 2 <= c <= n
    requires w[a[c]] < w[a[c / 2]]
    ensures Weighted(a[c := a[c / 2]][c / 2 := a[c]], n, w)
    ensures OrderedExceptUp(a[c := a[c / 2]][c / 2 := a[c]], n, w, c / 2)
  {
    var b := a[c := a[c / 2]][c / 2 := a[c]];
    var p := c / 2;
    forall i | 2 <= i <= n && i != p
      ensures w[b[i / 2]] <= w[b[i]]
    {
      if i == c {
      } else if i / 2 == c {
        assert w[a[c / 2]] <= w[a[i]];
      } else if i / 2 == p {
        assert w[a[p]] <= w[a[i]];
      } else if i == p {
      }
    }
    if 2 <= p {
      forall i | 2 <= i <= n && i / 2 == p
        ensures w[b[p / 2]] <= w[b[i]]
      {
        assert w[a[p / 2]] <= w[a[p]];
        if i != c {
          assert w[a[p]] <= w[a[i]];
        }
      }
    }
  }

  /** Where sift-down stops (at a leaf or above children no lighter), the heap is ordered. */
  lemma PercolateDone<H>(a: seq<H>, n: nat, w: map<H, int>, p: nat)
    requires Weighted(a, n, w) && OrderedExceptDown(a, n, w, p)
    requires 1 <= p && 2 * p <= n ==> w[a[p]] <= w[a[2 * p]]
    requires 1 <= p && 2 * p + 1 <= n ==> w[a[p]] <= w[a[2 * p + 1]]
    ensures Ordered(a, n, w)
  {
    forall i | 2 <= i <= n && i / 2 == p
      ensures w[a[p]] <= w[a[i]]
    {
      assert i == 2 * p || i == 2 * p + 1;
    }
  }

  /** One step of sift-down: swapping a slot with its lighter child when that child is lighter. */
  lemma PercolateStep<H>(a: seq<H>, n: nat, w: map<H, int>, p: nat, child: nat)
    requires Weighted(a, n, w) && OrderedExceptDown(a, n, w, p)
    requires 1 <= p && (child == 2 * p || child == 2 * p + 1) && child <= n
    requires w[a[child]] <= w[a[2 * p]]
    requires 2 * p + 1 <= n ==> w[a[child]] <= w[a[2 * p + 1]]
    requires w[a[child]] < w[a[p]]
    ensures Weighted(a[child := a[p]][p := a[child]], n, w)
    ensures OrderedExceptDown(a[child := a[p]][p := a[child]], n, w, child)
  {
    forall i | 2 <= i <= n && i / 2 == p
      ensures w[a[child]] <= w[a[i]]
    {
      assert i == 2 * p || i == 2 * p + 1;
    }
    var b := a[child := a[p]][p := a[child]];
    forall i | 2 <= i <= n && i / 2 != child
      ensures w[b[i / 2]] <= w[b[i]]
    {
      if i / 2 == p {
        assert w[a[child]] <= w[a[i]];
      } else if i == p {
        assert w[a[p / 2]] <= w[a[child]];
      }
    }
    forall i | 2 <= i <= n && i / 2 == child
      ensures w[b[child / 2]] <= w[b[i]]
    {
      assert w[a[child]] <= w[a[i]];
    }
  }

  /**
   * Appending `x` in slot n + 1, with its weight, story and recorded slot
   * updated, keeps the heap indexed, adds `x` to the multiset of slots,
   * keeps every other recorded slot right, and leaves the heap ordered
   * except above slot n + 1 when `x` was not in the heap before.
   */
  lemma Appended<H(!new), S>(a: seq<H>, n: nat, w: map<H, int>, s: map<H, S>, l: map<H, nat>, x: H, v: int, y: S, loc: nat)
    requires Indexed(a, n, w, s, l) && n + 1 < |a|
    ensures Indexed(a[n + 1 := x], n + 1, w[x := v], s[x := y], l[x := loc])
    ensures multiset(a[n + 1 := x][1..n + 2]) == multiset(a[1..n + 1]) + multiset{x}
    ensures forall g :: g != x && TrackedAt(a, n, l, g) ==> TrackedAt(a[n + 1 := x], n + 1, l[x := loc], g)
    ensures Ordered(a, n, w) && x !in a[1..n + 1] ==> OrderedExceptUp(a[n + 1 := x], n + 1, w[x := v], n + 1)
  {
    var b := a[n + 1 := x];
    assert b[1..n + 2] == a[1..n + 1] + [x];
    if Ordered(a, n, w) && x !in a[1..n + 1] {
      forall i | 1 <= i <= n
        ensures a[i] != x
      {
        assert a[i] == a[1..n + 1][i - 1];
      }
      OrderedElsewhere(a, n, w, x, v);
      AppendExceptUp(a, n, w[x := v], x);
    }
  }

  /**
   * Swapping the root with slot n and recording both new slots, then
   * dropping slot n: the rest stays indexed, the multiset of slots loses
   * the root, every other recorded slot stays right, and an ordered heap is
   * ordered except below the root.
   */
  lemma RootRemoved<H(!new), S>(a: seq<H>, m: nat, w: map<H, int>, s: map<H, S>, l: map<H, nat>, b: seq<H>, l': map<H, nat>, ordered: bool)
    requires Indexed(a, m + 1, w, s, l) && (ordered ==> Ordered(a, m + 1, w))
    requires b == a[1 := a[m + 1]][m + 1 := a[1]] && l' == l[b[1] := 1][b[m + 1] := m + 1]
    ensures Permuted(b, a, m + 1) && b[m + 1] == a[1]
    ensures Indexed(b, m, w, s, l')
    ensures multiset(b[1..m + 1]) + multiset{a[1]} == multiset(a[1..m + 2])
    ensures forall g :: g != a[1] && TrackedAt(a, m + 1, l, g) ==> TrackedAt(b, m, l', g)
    ensures Ordered(a, m + 1, w) ==> OrderedExceptDown(b, m, w, 1)
    ensures Swapped(a, l, b, l', m, w, ordered)
  {
    SwapOut(a, m, b);
    PermutedIndexed(b, a, m + 1, w, s, l);
    SwapOutTracks(a, m, l, b, l');
    if Ordered(a, m + 1, w) {
      RemoveRootExceptDown(a, m + 1, w);
    }
  }

  /** Swapping the root with slot m + 1 permutes slots 1..m + 1, and slots 1..m then hold all but the old root. */
  lemma SwapOut<H>(a: seq<H>, m: nat, b: seq<H>)
    requires m + 1 < |a| && b == a[1 := a[m + 1]][m + 1 := a[1]]
    ensures Permuted(b, a, m + 1) && b[m + 1] == a[1]
    ensures multiset(b[1..m + 1]) + multiset{a[1]} == multiset(a[1..m + 2])
  {
    SwapPermutes(a, m + 1, 1, m + 1);
    assert b[1..m + 2] == b[1..m + 1] + [a[1]];
  }

  /** After that swap and the two recorded slots, every other recorded slot in 1..m stays right. */
  lemma SwapOutTracks<H(!new)>(a: seq<H>, m: nat, l: map<H, nat>, b: seq<H>, l': map<H, nat>)
    requires m + 1 < |a| && b == a[1 := a[m + 1]][m + 1 := a[1]] && l' == l[b[1] := 1][b[m + 1] := m + 1]
    ensures forall g :: g != a[1] && TrackedAt(a, m + 1, l, g) ==> TrackedAt(b, m, l', g)
  {
  }

  /** Changing the weight of a headline not in slots 1..n keeps the heap property. */
  lemma OrderedElsewhere<H>(a: seq<H>, n: nat, w: map<H, int>, x: H, v: int)
    requires Weighted(a, n, w) && Ordered(a, n, w)
    requires forall i :: 1 <= i <= n ==> a[i] != x
    ensures Weighted(a, n, w[x := v]) && Ordered(a, n, w[x := v])
  {
    forall i | 2 <= i <= n
      ensures w[x := v][a[i / 2]] <= w[x := v][a[i]]
    {
      assert a[i / 2] != x;
    }
  }

  /** A headline placed in slot n + 1 of an ordered heap leaves only that slot to sift up. */
  lemma AppendExceptUp<H>(a: seq<H>, n: nat, w: map<H, int>, x: H)
    requires Weighted(a, n, w) && Ordered(a, n, w) && n + 1 < |a| && x in w
    ensures Weighted(a[n + 1 := x], n + 1, w)
    ensures OrderedExceptUp(a[n + 1 := x], n + 1, w, n + 1)
  {
  }

  /** Moving the last slot to the root and dropping it leaves only the root to sift down. */
  lemma RemoveRootExceptDown<H>(a: seq<H>, n: nat, w: map<H, int>)
    requires Weighted(a, n, w) && Ordered(a, n, w) && 1 <= n
    ensures Weighted(a[1 := a[n]][n := a[1]], n - 1, w)
    ensures OrderedExceptDown(a[1 := a[n]][n := a[1]], n - 1, w, 1)
  {
  }

  /** Lowering the weight of the headline at slot c (and nowhere else) leaves only c to sift up. */
  lemma LighterExceptUp<H>(a: seq<H>, n: nat, w: map<H, int>, c: nat, v: int)
    requires Weighted(a, n, w) && Ordered(a, n, w) && 1 <= c <= n && OnlyAt(a, n, a[c], c) && v <= w[a[c]]
    ensures Weighted(a, n, w[a[c] := v]) && OrderedExceptUp(a, n, w[a[c] := v], c)
  {
    var w' := w[a[c] := v];
    if 2 <= c <= n {
      forall i | 2 <= i <= n && i / 2 == c
        ensures w'[a[c / 2]] <= w'[a[i]]
      {
        assert w[a[c / 2]] <= w[a[c]] <= w[a[i]];
      }
    }
  }

  /** Raising the weight of the headline at slot c (and nowhere else) leaves only c to sift down. */
  lemma HeavierExceptDown<H>(a: seq<H>, n: nat, w: map<H, int>, c: nat, v: int)
    requires Weighted(a, n, w) && Ordered(a, n, w) && 1 <= c <= n && OnlyAt(a, n, a[c], c) && v >= w[a[c]]
    ensures Weighted(a, n, w[a[c] := v]) && OrderedExceptDown(a, n, w[a[c] := v], c)
  {
    var w' := w[a[c] := v];
    if 2 <= c <= n {
      forall i | 2 <= i <= n && i / 2 == c
        ensures w'[a[c / 2]] <= w'[a[i]]
      {
        assert w[a[c / 2]] <= w[a[c]] <= w[a[i]];
      }
    }
  }

  /** Swapping two of the slots 1..n permutes them. */
  lemma SwapPermutes<H>(a: seq<H>, n: nat, i: nat, j: nat)
    requires n < |a| && 1 <= i <= n && 1 <= j <= n
    ensures Permuted(a[i := a[j]][j := a[i]], a, n)
  {
    var b := a[i := a[j]][j := a[i]];
    assert b[n + 1..] == a[n + 1..];
    if i != j {
      var s := a[1..n + 1];
      assert b[1..n + 1] == s[i - 1 := a[j]][j - 1 := a[i]];
    }
  }

  /** Permuting is transitive. */
  lemma PermutedTrans<H>(c: seq<H>, b: seq<H>, a: seq<H>, n: nat)
    requires Permuted(c, b, n) && Permuted(b, a, n)
    ensures Permuted(c, a, n)
  {
  }

  /** A headline in slots 1..n stays in slots 1..n under a permutation. */
  lemma PermutedKeeps<H>(b: seq<H>, a: seq<H>, n: nat, k: nat) returns (j: nat)
    requires Permuted(b, a, n) && 1 <= k <= n
    ensures 1 <= j <= n && b[j] == a[k]
  {
    assert a[1..n + 1][k - 1] == a[k];
    assert a[k] in multiset(b[1..n + 1]);
    var m :| 0 <= m < n && b[1..n + 1][m] == a[k];
    j := m + 1;
  }

  /** The slot recorded in `locs` for `x` is one of the slots 1..n and holds `x`. */
  ghost predicate TrackedAt<H>(a: seq<H>, n: nat, locs: map<H, nat>, x: H)
  {
    x in locs && 1 <= locs[x] <= n && locs[x] < |a| && a[locs[x]] == x
  }

  /** Every headline whose recorded slot was right before is still right after. */
  ghost predicate TracksKept<H(!new)>(a: seq<H>, locs: map<H, nat>, b: seq<H>, locs': map<H, nat>, n: nat)
  {
    forall x :: TrackedAt(a, n, locs, x) ==> TrackedAt(b, n, locs', x)
  }

  lemma TracksKeptTrans<H(!new)>(a: seq<H>, l: map<H, nat>, b: seq<H>, l': map<H, nat>, c: seq<H>, l'': map<H, nat>, n: nat)
    requires TracksKept(a, l, b, l', n) && TracksKept(b, l', c, l'', n)
    ensures TracksKept(a, l, c, l'', n)
  {
  }

  /** Swapping two slots and recording both new slots keeps every recorded slot right, and makes both swapped ones right. */
  lemma SwapTracks<H(!new)>(a: seq<H>, n: nat, locs: map<H, nat>, i: nat, j: nat)
    requires n < |a| && 1 <= i <= n && 1 <= j <= n
    ensures var b := a[i := a[j]][j := a[i]];
            && TrackedAt(b, n, locs[b[i] := i][b[j] := j], b[i])
            && TrackedAt(b, n, locs[b[i] := i][b[j] := j], b[j])
            && TracksKept(a, locs, b, locs[b[i] := i][b[j] := j], n)
  {
    var b := a[i := a[j]][j := a[i]];
    forall x | TrackedAt(a, n, locs, x)
      ensures TrackedAt(b, n, locs[b[i] := i][b[j] := j], x)
    {
      if x != b[i] && x != b[j] {
        assert locs[x] != i && locs[x] != j;
      }
    }
  }

  /**
   * From `l` to `l'`: no record is added or dropped, and every record that
   * changed is right in `b`.
   */
  ghost predicate RecordsKept<H(!new)>(l: map<H, nat>, b: seq<H>, l': map<H, nat>, n: nat)
  {
    l'.Keys == l.Keys && forall x :: x in l && l'[x] != l[x] ==> TrackedAt(b, n, l', x)
  }

  lemma RecordsKeptTrans<H(!new)>(l: map<H, nat>, b: seq<H>, l': map<H, nat>, c: seq<H>, l'': map<H, nat>, n: nat)
    requires RecordsKept(l, b, l', n) && RecordsKept(l', c, l'', n) && TracksKept(b, l', c, l'', n)
    ensures RecordsKept(l, c, l'', n)
  {
  }

  /** One more rearrangement after earlier ones: the permutation, the right records and the changed records all compose. */
  lemma RoundKept<H(!new)>(a0: seq<H>, l0: map<H, nat>, a: seq<H>, l: map<H, nat>, b: seq<H>, l': map<H, nat>, n: nat)
    requires Permuted(a, a0, n) && TracksKept(a0, l0, a, l, n) && RecordsKept(l0, a, l, n)
    requires Permuted(b, a, n) && TracksKept(a, l, b, l', n) && RecordsKept(l, b, l', n)
    ensures Permuted(b, a0, n) && TracksKept(a0, l0, b, l', n) && RecordsKept(l0, b, l', n)
  {
    PermutedTrans(b, a, a0, n);
    TracksKeptTrans(a0, l0, a, l, b, l', n);
    RecordsKeptTrans(l0, a, l, b, l', n);
  }

  /** Swapping two recorded slots and recording both new slots changes no record except to a right one. */
  lemma SwapRecords<H(!new)>(a: seq<H>, n: nat, locs: map<H, nat>, i: nat, j: nat)
    requires n < |a| && 1 <= i <= n && 1 <= j <= n && a[i] in locs && a[j] in locs
    ensures var b := a[i := a[j]][j := a[i]];
            RecordsKept(locs, b, locs[b[i] := i][b[j] := j], n)
  {
    SwapTracks(a, n, locs, i, j);
  }

  /**
   * Recording `x` at slot m and then changing only records that end right:
   * `x` is the one record added, and every other record that changed is right.
   */
  lemma AppendRecords<H(!new)>(l: map<H, nat>, x: H, m: nat, c: seq<H>, l': map<H, nat>, n: nat)
    requires RecordsKept(l[x := m], c, l', n)
    ensures l'.Keys == l.Keys + {x}
    ensures forall g :: g != x && g in l && l'[g] != l[g] ==> TrackedAt(c, n, l', g)
  {
    forall g | g != x && g in l && l'[g] != l[g]
      ensures TrackedAt(c, n, l', g)
    {
      assert l[x := m][g] == l[g];
    }
  }

  /**
   * From `l` to `l'` across the dequeue of `x`, which leaves slot `last`:
   * no record is added or dropped, the record of `x` is `last` unless it is
   * right in `b`, and every other record that changed is right in `b`.
   */
  ghost predicate RecordsKeptRemoving<H(!new)>(l: map<H, nat>, b: seq<H>, l': map<H, nat>, n: nat, x: H, last: nat)
  {
    && l'.Keys == l.Keys && x in l'
    && (l'[x] == last || TrackedAt(b, n, l', x))
    && forall g :: g != x && g in l && l'[g] != l[g] ==> TrackedAt(b, n, l', g)
  }

  /** A dequeued headline that is no longer queued keeps the record `last`. */
  lemma RemovedRecordStays<H(!new)>(l: map<H, nat>, b: seq<H>, l': map<H, nat>, n: nat, x: H, last: nat)
    requires RecordsKeptRemoving(l, b, l', n, x, last) && n < |b| && x !in b[1..n + 1]
    ensures l'[x] == last
  {
  }

  /**
   * The records across a dequeue: swap(root, last) records y (the last
   * headline, now in slot 1) and x (the root, now in slot `last`, outside
   * the heap), then percolate changes only records that end right. No
   * record is added or dropped; x keeps `last` unless it is right; every
   * other record that changed is right.
   */
  lemma RemovedRecords<H(!new)>(l: map<H, nat>, x: H, y: H, last: nat, b: seq<H>, l1: map<H, nat>, c: seq<H>, l': map<H, nat>, n: nat)
    requires x in l && y in l && l1 == l[y := 1][x := last] && (y != x ==> 1 <= n < |b| && b[1] == y)
    requires RecordsKept(l1, c, l', n) && TracksKept(b, l1, c, l', n)
    ensures RecordsKeptRemoving(l, c, l', n, x, last)
  {
    forall g | g != x && g in l && l'[g] != l[g]
      ensures TrackedAt(c, n, l', g)
    {
      if g == y {
        assert TrackedAt(b, n, l1, g);
      }
    }
  }

  /** Records right after the swap of a dequeue stay right across the percolate that follows it. */
  lemma RemovedTracks<H(!new)>(a: seq<H>, l: map<H, nat>, x: H, last: nat, b: seq<H>, l1: map<H, nat>, c: seq<H>, l': map<H, nat>, n: nat)
    requires forall g :: g != x && TrackedAt(a, last, l, g) ==> TrackedAt(b, n, l1, g)
    requires TracksKept(b, l1, c, l', n)
    ensures forall g :: g != x && TrackedAt(a, last, l, g) ==> TrackedAt(c, n, l', g)
  {
  }

  /** `before` holds the headlines of `live` and one more `x`. */
  ghost predicate OneMore<H>(live: seq<H>, x: H, before: seq<H>)
  {
    multiset(live) + multiset{x} == multiset(before)
  }

  /**
   * The state right after swap(root, last) of a dequeue, from the slots `a`
   * and records `l` before it to the slots `b` and records `l1`: the root
   * and slot n + 1 are exchanged, slots 1..n hold the rest, and every other
   * right record is still right.
   */
  ghost predicate Swapped<H(!new)>(a: seq<H>, l: map<H, nat>, b: seq<H>, l1: map<H, nat>, n: nat, w: map<H, int>, ordered: bool)
  {
    && |a| == |b| && n + 1 < |a| && b[1] == a[n + 1] && b[n + 1] == a[1]
    && OneMore(b[1..n + 1], a[1], a[1..n + 2])
    && Permuted(b, a, n + 1)
    && (ordered ==> Weighted(a, n + 1, w) && Ordered(a, n + 1, w))
    && a[1] in l && a[n + 1] in l && l1 == l[a[n + 1] := 1][a[1] := n + 1]
    && forall g :: g != a[1] && TrackedAt(a, n + 1, l, g) ==> TrackedAt(b, n, l1, g)
  }

  /**
   * What a dequeue keeps, from the slots `a` and records `l` before it,
   * through `b` and `l1` after swap(root, last), to `c` and `l'` after the
   * percolate that follows: the root leaves for slot n + 1, the other
   * headlines stay, an ordered heap gives up its lightest, and records
   * change only to right ones.
   */
  lemma Settled<H(!new)>(a: seq<H>, l: map<H, nat>, b: seq<H>, l1: map<H, nat>, c: seq<H>, l': map<H, nat>, n: nat, w: map<H, int>, ordered: bool)
    requires Swapped(a, l, b, l1, n, w, ordered)
    requires Permuted(c, b, n) && TracksKept(b, l1, c, l', n) && RecordsKept(l1, c, l', n)
    ensures c[n + 1] == a[1]
    ensures OneMore(c[1..n + 1], a[1], a[1..n + 2])
    ensures ordered && n > 0 ==> c[1] in w && w[a[1]] <= w[c[1]]
    ensures forall g :: g != a[1] && TrackedAt(a, n + 1, l, g) ==> TrackedAt(c, n, l', g)
    ensures RecordsKeptRemoving(l, c, l', n, a[1], n + 1)
    ensures a[1] !in c[1..n + 1] ==> l'[a[1]] == n + 1
  {
    assert c[n + 1..][0] == c[n + 1];
    if ordered && n > 0 {
      RootNotLighter(a, b, c, n, w);
    }
    RemovedTracks(a, l, a[1], n + 1, b, l1, c, l', n);
    RemovedRecords(l, a[1], a[n + 1], n + 1, b, l1, c, l', n);
    if a[1] !in c[1..n + 1] {
      RemovedRecordStays(l, c, l', n, a[1], n + 1);
    }
  }

  /** Slot `f` is slot `c` or one of its ancestors: halving `c` while it is 2 or more reaches `f`. */
  ghost predicate AncestorOrSelf(f: nat, c: nat)
    decreases c
  {
    f == c || (c >= 2 && AncestorOrSelf(f, c / 2))
  }

  /** The parent of an ancestor is an ancestor, and an ancestor is never below. */
  lemma {:induction false} AncestorStep(x: nat, c: nat)
    requires AncestorOrSelf(x, c) && x >= 2
    ensures AncestorOrSelf(x / 2, c) && x / 2 < c
    decreases c
  {
    if x != c {
      AncestorStep(x, c / 2);
    }
  }

  /** Every headline in slots 1..n has a weight, a story and a recorded slot. */
  ghost predicate Indexed<H, S, L>(a: seq<H>, n: nat, w: map<H, int>, s: map<H, S>, l: map<H, L>)
  {
    Weighted(a, n, w) && forall i :: 1 <= i <= n ==> a[i] in s && a[i] in l
  }

  /** Two arrays that agree on slots 1..n carry the same heap and the same recorded slots. */
  lemma SameSlots<H(!new), S>(b: seq<H>, a: seq<H>, n: nat, w: map<H, int>, s: map<H, S>, l: map<H, nat>)
    requires n < |a| && n < |b| && forall i :: 1 <= i <= n ==> b[i] == a[i]
    ensures Indexed(a, n, w, s, l) ==> Indexed(b, n, w, s, l)
    ensures Weighted(a, n, w) && Ordered(a, n, w) ==> Weighted(b, n, w) && Ordered(b, n, w)
    ensures TracksKept(a, l, b, l, n)
  {
  }

  /** Permuting slots 1..n keeps them indexed. */
  lemma PermutedIndexed<H, S, L>(b: seq<H>, a: seq<H>, n: nat, w: map<H, int>, s: map<H, S>, l: map<H, L>)
    requires Permuted(b, a, n) && Indexed(a, n, w, s, l)
    ensures Indexed(b, n, w, s, l)
  {
    forall k | 1 <= k <= n
      ensures b[k] in w && b[k] in s && b[k] in l
    {
      var j := PermutedKeeps(a, b, n, k);
    }
  }
}
