/**
 * NewsFeed: a priority queue of headlines, least stale first, kept as a
 * 1-indexed binary min-heap of headlines next to three dictionaries:
 * headline to story, headline to staleness, headline to heap slot.
 *
 * NewsFeed never removes a dictionary entry, so its DictHash tables never
 * hold a tombstone; on such tables HashTable.DictHash is proved to behave
 * as a map (add is map update, the const get is lookup with NotFound, the
 * mutable get is lookup that inserts the default). The three dictionaries
 * are modelled here as the maps they hold.
 */
module Feed {
  import opened Wrappers
  import opened Heaps

  type Headline = string
  type Story = string
  type Staleness = int
  type HeapLocation = nat

  class NewsFeed {
    var stories: map<Headline, Story>
    var staleness: map<Headline, Staleness>
    var locations: map<Headline, HeapLocation>
    /** Slots 1..n hold the queued headlines; slot 0 is not used. */
    var heap: array<Headline>
    var n: nat
    var capacity: nat

    /** The heap fits its capacity and every queued headline has a story, a weight and a slot entry. */
    ghost predicate Valid()
      reads this, heap
    {
      && heap.Length == capacity + 1 && n <= capacity
      && Indexed(heap[..], n, staleness, stories, locations)
    }

    /** The queued headlines, slot 1 first. */
    ghost function Live(): seq<Headline>
      reads this, heap
      requires n < heap.Length
    {
      heap[1..n + 1]
    }

    /** The min-heap property over slots 1..n. */
    ghost predicate HeapOrdered()
      reads this, heap
      requires Weighted(heap[..], n, staleness)
    {
      Ordered(heap[..], n, staleness)
    }

    /** The slot recorded for `h` is a live slot that holds `h`. */
    ghost predicate Tracks(h: Headline)
      reads this, heap
    {
      TrackedAt(heap[..], n, locations, h)
    }

    constructor ()
      ensures Valid() && n == 0 && capacity == 0 && fresh(heap)
      ensures stories == map[] && staleness == map[] && locations == map[]
    {
      stories, staleness, locations := map[], map[], map[];
      heap := new Headline[1](_ => "");
      n := 0;
      capacity := 0;
    }

    /** root(): the one slot from 1 up whose parent, slot 0, lies outside the heap. */
    static function Root(): (r: nat)
      ensures r >= 1 && Parent(r) == 0
    {
      1
    }

    static function Parent(child: nat): (p: nat)
      ensures child >= 2 ==> 1 <= p < child
    {
      child / 2
    }

    static function Left(p: nat): (c: nat)
      ensures Parent(c) == p && (p >= 1 ==> c > p)
    {
      p * 2
    }

    static function Right(p: nat): (c: nat)
      ensures Parent(c) == p && c == Left(p) + 1
    {
      Left(p) + 1
    }

    /** valid(i): i is a live slot. */
    function ValidSlot(i: nat): (r: bool)
      reads this
      ensures r <==> 1 <= i <= n
    {
      i <= n && i >= Root()
    }

    /** is_root(i): i is the root slot. */
    function IsRoot(i: nat): (r: bool)
      ensures r <==> i == 1
    {
      i == Root()
    }

    /** is_leaf(i): no live slot has slot i as its parent. */
    function IsLeaf(i: nat): (r: bool)
      reads this
      ensures r <==> forall c :: 2 <= c <= n ==> Parent(c) != i
      ensures r <==> i == 0 || n < 2 * i
    {
      assert ValidSlot(Left(i)) && i >= 1 ==> 2 <= Left(i) <= n && Parent(Left(i)) == i;
      !ValidSlot(Left(i))
    }

    /** has_right(p): the right child slot of p is live. */
    function HasRight(p: nat): (r: bool)
      reads this
      ensures r <==> 2 * p + 1 <= n
    {
      ValidSlot(Right(p))
    }

    /** empty: no headline is queued. */
    function Empty(): (r: bool)
      reads this, heap
      requires Valid()
      ensures r <==> Live() == []
    {
      n == 0
    }

    /** weight: the staleness of a headline; the const get throws for one never queued. */
    method Weight(headline: Headline) returns (r: Result<Staleness>)
      requires Valid()
      ensures r.Ok? <==> headline in staleness
      ensures r.Ok? ==> r.value == staleness[headline]
      ensures r.Err? ==> r.failure == NotFound
      ensures headline in Live() ==> r.Ok?
    {
      if headline in staleness {
        r := Ok(staleness[headline]);
      } else {
        r := Err(NotFound);
      }
    }

    /** get: the story of a headline; the const get throws for one never queued. */
    method Get(headline: Headline) returns (r: Result<Story>)
      requires Valid()
      ensures r.Ok? <==> headline in stories
      ensures r.Ok? ==> r.value == stories[headline]
      ensures r.Err? ==> r.failure == NotFound
      ensures headline in Live() ==> r.Ok?
    {
      if headline in stories {
        r := Ok(stories[headline]);
      } else {
        r := Err(NotFound);
      }
    }

    /** value(i): the weight of the headline in slot i, never failing for a live slot. */
    method Value(i: nat) returns (r: Result<Staleness>)
      requires Valid() && i < heap.Length
      ensures r.Ok? <==> heap[i] in staleness
      ensures r.Ok? ==> r.value == staleness[heap[i]]
      ensures 1 <= i <= n ==> r.Ok?
    {
      r := Weight(heap[i]);
    }

    /** swap: exchange two live slots and record each headline's new slot. */
    method Swap(i: nat, j: nat)
      requires Valid() && 1 <= i <= n && 1 <= j <= n
      modifies heap, this`locations
      ensures Valid()
      ensures heap[..] == old(heap[..])[i := old(heap[j])][j := old(heap[i])]
      ensures locations == old(locations)[heap[i] := i][heap[j] := j]
      ensures Permuted(heap[..], old(heap[..]), n)
      ensures Tracks(heap[i]) && Tracks(heap[j])
      ensures TracksKept(old(heap[..]), old(locations), heap[..], locations, n)
      ensures RecordsKept(old(locations), heap[..], locations, n)
    {
      ghost var a := heap[..];
      SwapPermutes(a, n, i, j);
      SwapTracks(a, n, locations, i, j);
      SwapRecords(a, n, locations, i, j);
      heap[i], heap[j] := heap[j], heap[i];
      locations := locations[heap[i] := i];
      locations := locations[heap[j] := j];
      PermutedIndexed(heap[..], a, n, staleness, stories, locations);
    }

    /**
     * One round of bubble: swap slot c with its parent, which is heavier.
     * What the rounds so far have kept (a permutation of `a0`, the slots
     * recorded in `l0`, the sift-up order) is kept.
     */
    method SwapUp(c: nat, ghost a0: seq<Headline>, ghost l0: map<Headline, HeapLocation>, ghost ordered: bool)
      requires Valid() && 2 <= c <= n
      requires staleness[heap[c]] < staleness[heap[c / 2]]
      requires Permuted(heap[..], a0, n) && TracksKept(a0, l0, heap[..], locations, n)
      requires RecordsKept(l0, heap[..], locations, n)
      requires ordered ==> OrderedExceptUp(heap[..], n, staleness, c)
      modifies heap, this`locations
      ensures Valid() && Permuted(heap[..], a0, n) && TracksKept(a0, l0, heap[..], locations, n)
      ensures RecordsKept(l0, heap[..], locations, n)
      ensures TracksKept(old(heap[..]), old(locations), heap[..], locations, n)
      ensures RecordsKept(old(locations), heap[..], locations, n)
      ensures ordered ==> OrderedExceptUp(heap[..], n, staleness, c / 2)
      ensures heap[c / 2] == old(heap[c]) && Tracks(heap[c / 2])
    {
      ghost var a: seq<Headline>, l: map<Headline, HeapLocation> := heap[..], locations;
      if ordered {
        BubbleStep(a, n, staleness, c);
      }
      Swap(c, c / 2);
      assert heap[..] == a[c := a[c / 2]][c / 2 := a[c]];
      RoundKept(a0, l0, a, l, heap[..], locations, n);
    }

    /**
     * bubble: sift the headline in slot c up while it is lighter than its
     * parent. value() throws for slot 0 when heap[0] has no weight; `ok` is
     * false exactly then. `final` is the slot the headline ends in.
     */
    method Bubble(c: nat) returns (ok: bool, ghost final: nat)
      requires Valid() && c <= n
      modifies heap, this`locations
      ensures Valid() && Permuted(heap[..], old(heap[..]), n)
      ensures ok <==> c != 0 || heap[0] in staleness
      ensures old(OrderedExceptUp(heap[..], n, staleness, c)) ==> HeapOrdered()
      ensures TracksKept(old(heap[..]), old(locations), heap[..], locations, n)
      ensures RecordsKept(old(locations), heap[..], locations, n)
      ensures final <= c && AncestorOrSelf(final, c) && (final == 0 <==> c == 0) && heap[final] == old(heap[c])
      ensures final == c ==> heap[..] == old(heap[..]) && locations == old(locations)
      ensures final != c ==> Tracks(heap[final])
    {
      ghost var a0: seq<Headline>, l0: map<Headline, HeapLocation> := heap[..], locations;
      ghost var ordered := OrderedExceptUp(a0, n, staleness, c);
      var child: nat := c;
      ok := true;
      while !IsRoot(child)
        invariant Valid() && child <= c && AncestorOrSelf(child, c) && (c == 0 <==> child == 0)
        invariant Permuted(heap[..], a0, n)
        invariant ordered ==> OrderedExceptUp(heap[..], n, staleness, child)
        invariant TracksKept(a0, l0, heap[..], locations, n)
        invariant RecordsKept(l0, heap[..], locations, n)
        invariant heap[child] == a0[c]
        invariant child == c ==> heap[..] == a0 && locations == l0
        invariant child != c ==> Tracks(heap[child])
        decreases child
      {
        var vc := Value(child);
        if vc.Err? {
          ok := false;
          break;
        }
        var p := Parent(child);
        assert p == child || 1 <= p <= n;
        var vp := Value(p);
        if !(vc.value < vp.value) {
          break;
        }
        SwapUp(child, a0, l0, ordered);
        AncestorStep(child, c);
        child := p;
      }
      final := child;
      if ordered {
        BubbleDone(heap[..], n, staleness, child);
      }
    }

    /** The child percolate compares slot p with: the right one only when it is strictly lighter than the left one. */
    method LighterChild(p: nat) returns (child: nat)
      requires Valid() && !IsLeaf(p)
      ensures 1 <= p && (child == 2 * p || child == 2 * p + 1) && child <= n
      ensures staleness[heap[child]] <= staleness[heap[2 * p]]
      ensures 2 * p + 1 <= n ==> staleness[heap[child]] <= staleness[heap[2 * p + 1]]
      ensures child == 2 * p + 1 ==> staleness[heap[2 * p + 1]] < staleness[heap[2 * p]]
    {
      child := Left(p);
      assert 1 <= p && 2 <= child <= n;
      if HasRight(p) {
        var vr := Value(Right(p));
        var vl := Value(child);
        if vr.value < vl.value {
          child := Right(p);
        }
      }
    }

    /**
     * One round of percolate: swap slot p with its lighter child, which is
     * lighter than p. What the rounds so far have kept (a permutation of
     * `a0`, the slots recorded in `l0`, the sift-down order) is kept.
     */
    method SwapDown(p: nat, child: nat, ghost a0: seq<Headline>, ghost l0: map<Headline, HeapLocation>, ghost ordered: bool)
      requires Valid()
      requires 1 <= p && (child == 2 * p || child == 2 * p + 1) && child <= n
      requires staleness[heap[child]] <= staleness[heap[2 * p]]
      requires 2 * p + 1 <= n ==> staleness[heap[child]] <= staleness[heap[2 * p + 1]]
      requires staleness[heap[child]] < staleness[heap[p]]
      requires Permuted(heap[..], a0, n) && TracksKept(a0, l0, heap[..], locations, n)
      requires RecordsKept(l0, heap[..], locations, n)
      requires ordered ==> OrderedExceptDown(heap[..], n, staleness, p)
      modifies heap, this`locations
      ensures Valid() && Permuted(heap[..], a0, n) && TracksKept(a0, l0, heap[..], locations, n)
      ensures RecordsKept(l0, heap[..], locations, n)
      ensures TracksKept(old(heap[..]), old(locations), heap[..], locations, n)
      ensures RecordsKept(old(locations), heap[..], locations, n)
      ensures ordered ==> OrderedExceptDown(heap[..], n, staleness, child)
      ensures heap[child] == old(heap[p]) && Tracks(heap[child])
    {
      ghost var a: seq<Headline>, l: map<Headline, HeapLocation> := heap[..], locations;
      if ordered {
        PercolateStep(a, n, staleness, p, child);
      }
      Swap(child, p);
      assert heap[..] == a[child := a[p]][p := a[child]];
      RoundKept(a0, l0, a, l, heap[..], locations, n);
    }

    /**
     * percolate: sift the headline in slot p down, swapping it with its
     * lighter child (the left one on a tie) while that child is lighter.
     * `final` is the slot the headline ends in.
     */
    method Percolate(p: nat) returns (ghost final: nat)
      requires Valid()
      modifies heap, this`locations
      ensures Valid() && Permuted(heap[..], old(heap[..]), n)
      ensures old(OrderedExceptDown(heap[..], n, staleness, p)) ==> HeapOrdered()
      ensures TracksKept(old(heap[..]), old(locations), heap[..], locations, n)
      ensures RecordsKept(old(locations), heap[..], locations, n)
      ensures final == p ==> heap[..] == old(heap[..]) && locations == old(locations)
      ensures final != p ==> 1 <= p < final <= n && heap[final] == old(heap[p]) && Tracks(heap[final])
    {
      ghost var a0: seq<Headline>, l0: map<Headline, HeapLocation> := heap[..], locations;
      ghost var ordered := OrderedExceptDown(a0, n, staleness, p);
      var q: nat := p;
      while !IsLeaf(q)
        invariant Valid() && p <= q
        invariant Permuted(heap[..], a0, n)
        invariant ordered ==> OrderedExceptDown(heap[..], n, staleness, q)
        invariant TracksKept(a0, l0, heap[..], locations, n)
        invariant RecordsKept(l0, heap[..], locations, n)
        invariant q == p ==> heap[..] == a0 && locations == l0
        invariant q != p ==> 1 <= p < q <= n && heap[q] == a0[p] && Tracks(heap[q])
        decreases n - q
      {
        var child := LighterChild(q);
        var vq := Value(q);
        var vc := Value(child);
        if vq.value <= vc.value {
          break;
        }
        SwapDown(q, child, a0, l0, ordered);
        q := child;
      }
      final := q;
      if ordered {
        PercolateDone(heap[..], n, staleness, q);
      }
    }

    /** resize: a fresh heap array of capacity 2 * capacity + 17 receiving slots 1..n; the new slots hold empty headlines. */
    method Resize()
      requires Valid()
      modifies this`heap, this`capacity
      ensures Valid() && fresh(heap) && n < capacity
      ensures capacity == 2 * old(capacity) + 17
      ensures Live() == old(Live()) && heap[0] == ""
      ensures TracksKept(old(heap[..]), locations, heap[..], locations, n)
      ensures old(HeapOrdered()) ==> HeapOrdered()
    {
      var oldheap := heap;
      capacity := 2 * capacity + 17;
      heap := new Headline[capacity + 1](_ => "");
      var i := 1;
      while i <= n
        invariant fresh(heap) && capacity == 2 * old(capacity) + 17 && heap.Length == capacity + 1 && heap[0] == ""
        invariant 1 <= i <= n + 1 && n < oldheap.Length && n < capacity
        invariant forall j :: 1 <= j < i ==> heap[j] == oldheap[j]
      {
        heap[i] := oldheap[i];
        i := i + 1;
      }
      assert heap[1..n + 1] == oldheap[1..n + 1];
      assert old(Live()) == oldheap[1..n + 1];
      SameSlots(heap[..], oldheap[..], n, staleness, stories, locations);
    }

    /**
     * The body of enqueue after the resize: record story and weight, record
     * the slot as n, the slot before the one the headline is put in, and
     * append the headline.
     */
    method Append(headline: Headline, story: Story, weight: Staleness)
      requires Valid() && n < capacity
      modifies this`stories, this`staleness, this`locations, this`n, heap
      ensures Valid() && n == old(n) + 1
      ensures heap[..] == old(heap[..])[n := headline]
      ensures stories == old(stories)[headline := story] && staleness == old(staleness)[headline := weight]
      ensures locations == old(locations)[headline := old(n)]
      ensures multiset(Live()) == multiset(old(Live())) + multiset{headline}
      ensures old(HeapOrdered()) && headline !in old(Live()) ==> OrderedExceptUp(heap[..], n, staleness, n)
      ensures forall g :: g != headline && TrackedAt(old(heap[..]), old(n), old(locations), g) ==> Tracks(g)
    {
      Appended(heap[..], n, staleness, stories, locations, headline, weight, story, n);
      ghost var a: seq<Headline> := heap[..];
      stories := stories[headline := story];
      staleness := staleness[headline := weight];
      locations := locations[headline := n];
      n := n + 1;
      heap[n] := headline;
      assert heap[..] == a[n := headline];
    }

    /**
     * enqueue after the resize: append the headline and bubble it up.
     * `final` is the slot the headline ends in.
     */
    method Push(headline: Headline, story: Story, weight: Staleness) returns (ghost final: nat)
      requires Valid() && n < capacity
      modifies this`stories, this`staleness, this`locations, this`n, heap
      ensures Valid() && n == old(n) + 1
      ensures multiset(Live()) == multiset(old(Live())) + multiset{headline}
      ensures stories == old(stories)[headline := story] && staleness == old(staleness)[headline := weight]
      ensures old(HeapOrdered()) && headline !in old(Live()) ==> HeapOrdered()
      ensures 1 <= final <= n && heap[final] == headline
      ensures final == n ==> locations[headline] == old(n)
      ensures final != n ==> Tracks(headline)
      ensures forall g :: g != headline && TrackedAt(old(heap[..]), old(n), old(locations), g) ==> Tracks(g)
      ensures locations.Keys == old(locations).Keys + {headline}
      ensures forall g :: g != headline && g in old(locations) && locations[g] != old(locations)[g] ==> Tracks(g)
    {
      ghost var ordered := HeapOrdered() && headline !in Live();
      ghost var a: seq<Headline>, l0, live0 := heap[..], locations, Live();
      Append(headline, story, weight);
      ghost var b: seq<Headline>, l := heap[..], locations;
      assert ordered ==> OrderedExceptUp(b, n, staleness, n);
      assert multiset(b[1..n + 1]) == multiset(live0) + multiset{headline};
      var ok;
      ok, final := Bubble(n);
      assert multiset(Live()) == multiset(b[1..n + 1]);
      forall g | g != headline && TrackedAt(a, old(n), l0, g)
        ensures Tracks(g)
      {
        assert TrackedAt(b, n, l, g);
      }
      AppendRecords(l0, headline, old(n), heap[..], locations, n);
    }

    /**
     * enqueue: grow the heap when full, then append the headline and bubble
     * it up. `final` is the slot the headline ends in.
     */
    method Enqueue(headline: Headline, story: Story, weight: Staleness) returns (ghost final: nat)
      requires Valid()
      modifies this, heap
      ensures Valid() && n == old(n) + 1 && (heap == old(heap) || fresh(heap))
      ensures capacity == if old(n) == old(capacity) then 2 * old(capacity) + 17 else old(capacity)
      ensures multiset(Live()) == multiset(old(Live())) + multiset{headline}
      ensures stories == old(stories)[headline := story] && staleness == old(staleness)[headline := weight]
      ensures old(HeapOrdered()) && headline !in old(Live()) ==> HeapOrdered()
      ensures 1 <= final <= n && heap[final] == headline
      ensures final == n ==> locations[headline] == old(n)
      ensures final != n ==> Tracks(headline)
      ensures forall g :: g != headline && TrackedAt(old(heap[..]), old(n), old(locations), g) ==> Tracks(g)
      ensures locations.Keys == old(locations).Keys + {headline}
      ensures forall g :: g != headline && g in old(locations) && locations[g] != old(locations)[g] ==> Tracks(g)
    {
      if n == capacity {
        Resize();
      }
      final := Push(headline, story, weight);
    }

    /** peek: the root headline, which is the least stale when the heap is ordered; peek on an empty heap throws. */
    method Peek() returns (r: Result<Headline>)
      requires Valid()
      ensures n == 0 <==> r.Err?
      ensures r.Err? ==> r.failure == EmptyQueue
      ensures r.Ok? ==> r.value == heap[1] && r.value in Live() && r.value in staleness
      ensures r.Ok? && HeapOrdered() ==> forall i :: 1 <= i <= n ==> staleness[r.value] <= staleness[heap[i]]
    {
      if Empty() {
        return Err(EmptyQueue);
      }
      r := Ok(heap[Root()]);
      assert heap[1] == Live()[0];
      if HeapOrdered() {
        forall i | 1 <= i <= n
          ensures staleness[heap[1]] <= staleness[heap[i]]
        {
          RootIsLightest(heap[..], n, staleness, i);
        }
      }
    }

    /**
     * The first step of dequeue, swap(root(), n--): the root goes to slot
     * n, which then leaves the heap.
     */
    method RemoveRoot(ghost ordered: bool)
      requires Valid() && n > 0 && (ordered ==> HeapOrdered())
      modifies this`n, this`locations, heap
      ensures Valid() && n == old(n) - 1
      ensures Swapped(old(heap[..]), old(locations), heap[..], locations, n, staleness, ordered)
      ensures ordered ==> OrderedExceptDown(heap[..], n, staleness, 1)
    {
      ghost var a: seq<Headline>, l := heap[..], locations;
      Swap(Root(), n);
      n := n - 1;
      RootRemoved(a, n, staleness, stories, l, heap[..], locations, ordered);
    }

    /**
     * The second step of dequeue, percolate(root()), stated against the
     * slots `a` and records `l` from before the root went to slot n + 1.
     */
    method SettleRoot(ghost a: seq<Headline>, ghost l: map<Headline, HeapLocation>, ghost ordered: bool)
      requires Valid() && Swapped(a, l, heap[..], locations, n, staleness, ordered)
      requires ordered ==> OrderedExceptDown(heap[..], n, staleness, 1)
      modifies this`locations, heap
      ensures Valid() && n == old(n) && heap[n + 1] == a[1]
      ensures OneMore(Live(), a[1], a[1..n + 2])
      ensures ordered ==> HeapOrdered()
      ensures ordered && n > 0 ==> staleness[a[1]] <= staleness[heap[1]]
      ensures forall g :: g != a[1] && TrackedAt(a, n + 1, l, g) ==> Tracks(g)
      ensures RecordsKeptRemoving(l, heap[..], locations, n, a[1], n + 1)
      ensures a[1] !in Live() ==> locations[a[1]] == n + 1
    {
      ghost var b: seq<Headline>, l1 := heap[..], locations;
      ghost var f := Percolate(Root());
      Settled(a, l, b, l1, heap[..], locations, n, staleness, ordered);
      assert OneMore(heap[..][1..n + 1], a[1], a[1..n + 2]);
      assert Live() == heap[..][1..n + 1];
      assert OneMore(Live(), a[1], a[1..n + 2]);
    }

    /**
     * dequeue on a non-empty heap: move the root out of the heap and
     * percolate the new root down; the dictionary entries of the removed
     * headline stay.
     */
    method Pop()
      requires Valid() && n > 0
      modifies this`n, this`locations, heap
      ensures Valid() && n == old(n) - 1 && heap[old(n)] == old(heap[1])
      ensures multiset(Live()) + multiset{old(heap[1])} == multiset(old(Live()))
      ensures old(HeapOrdered()) ==> HeapOrdered()
      ensures old(HeapOrdered()) && n > 0 ==> staleness[old(heap[1])] <= staleness[heap[1]]
      ensures forall g :: g != old(heap[1]) && TrackedAt(old(heap[..]), old(n), old(locations), g) ==> Tracks(g)
      ensures RecordsKeptRemoving(old(locations), heap[..], locations, n, old(heap[1]), old(n))
      ensures old(heap[1]) !in Live() ==> locations[old(heap[1])] == old(n)
    {
      ghost var a: seq<Headline>, l, last := heap[..], locations, n;
      ghost var ordered := HeapOrdered();
      assert a[1] == heap[1];
      assert a[1..n + 1] == Live();
      RemoveRoot(ordered);
      SettleRoot(a, l, ordered);
      assert heap[last] == a[1];
    }

    /** dequeue: throws on an empty heap, otherwise pops the root. */
    method Dequeue() returns (r: Outcome)
      requires Valid()
      modifies this`n, this`locations, heap
      ensures Valid()
      ensures old(n) == 0 <==> r.Fail?
      ensures r.Fail? ==> r.failure == EmptyQueue && n == 0 && heap[..] == old(heap[..]) && locations == old(locations)
      ensures r.Done? ==> n == old(n) - 1 && heap[old(n)] == old(heap[1])
      ensures r.Done? ==> multiset(Live()) + multiset{old(heap[1])} == multiset(old(Live()))
      ensures r.Done? && old(HeapOrdered()) ==> HeapOrdered()
      ensures r.Done? && old(HeapOrdered()) && n > 0 ==> staleness[old(heap[1])] <= staleness[heap[1]]
      ensures r.Done? ==> forall g :: g != old(heap[1]) && TrackedAt(old(heap[..]), old(n), old(locations), g) ==> Tracks(g)
      ensures r.Done? ==> RecordsKeptRemoving(old(locations), heap[..], locations, n, old(heap[1]), old(n))
      ensures r.Done? && old(heap[1]) !in Live() ==> locations[old(heap[1])] == old(n)
    {
      if Empty() {
        return Fail(EmptyQueue);
      }
      Pop();
      return Done;
    }

    /**
     * The first part of reweight: read the old weight (the mutable get,
     * which inserts nothing for a queued headline), store the new one, and
     * percolate from the recorded slot when the headline got heavier, bubble
     * otherwise. `ok` is false when bubble throws, which it does only from
     * slot 0.
     */
    method Resift(headline: Headline, newWeight: Staleness) returns (ok: bool)
      requires Valid() && headline in Live()
      requires headline in staleness && headline in locations && locations[headline] <= n
      modifies this`staleness, this`locations, heap
      ensures Valid() && staleness == old(staleness)[headline := newWeight]
      ensures Permuted(heap[..], old(heap[..]), n)
      ensures TracksKept(old(heap[..]), old(locations), heap[..], locations, n)
      ensures RecordsKept(old(locations), heap[..], locations, n)
      ensures !ok <==> old(locations[headline]) == 0 && newWeight <= old(staleness[headline]) && heap[0] !in staleness
      ensures !ok ==> heap[..] == old(heap[..]) && locations == old(locations)
      ensures newWeight <= old(staleness[headline]) && old(locations[headline]) == Root() ==> heap[..] == old(heap[..])
      ensures old(HeapOrdered() && OnlyAt(heap[..], n, headline, locations[headline])) ==> ok && HeapOrdered()
    {
      var oldWeight := staleness[headline];
      ghost var a: seq<Headline>, w := heap[..], staleness;
      staleness := staleness[headline := newWeight];
      var loc := locations[headline];
      ghost var ordered := Ordered(a, n, w) && OnlyAt(a, n, headline, loc);
      if newWeight > oldWeight {
        if ordered {
          HeavierExceptDown(a, n, w, loc, newWeight);
        }
        ghost var f := Percolate(loc);
        ok := true;
      } else {
        if ordered {
          LighterExceptUp(a, n, w, loc, newWeight);
        }
        ghost var f;
        ok, f := Bubble(loc);
      }
    }

    /** The last part of reweight: scan from slot 1 for the headline and record the first slot holding it. */
    method Relocate(headline: Headline)
      requires Valid() && headline in Live()
      modifies this`locations
      ensures Valid() && locations == old(locations)[headline := locations[headline]] && Live() == old(Live())
      ensures Tracks(headline) && forall i :: 1 <= i < locations[headline] ==> heap[i] != headline
      ensures forall g :: g != headline && TrackedAt(heap[..], n, old(locations), g) ==> Tracks(g)
      ensures TracksKept(heap[..], old(locations), heap[..], locations, n)
      ensures RecordsKept(old(locations), heap[..], locations, n)
    {
      ghost var k :| 0 <= k < n && Live()[k] == headline;
      assert heap[k + 1] == headline;
      var i := 1;
      while heap[i] != headline
        invariant 1 <= i <= k + 1
        invariant forall j :: 1 <= j < i ==> heap[j] != headline
        decreases k + 1 - i
      {
        i := i + 1;
      }
      locations := locations[headline := i];
    }

    /**
     * reweight: give a queued headline a new weight, re-sift it from its
     * recorded slot, then record the first slot holding it. Reweight throws
     * when it has to bubble from slot 0 and heap[0] has no weight.
     */
    method Reweight(headline: Headline, newWeight: Staleness) returns (r: Outcome)
      requires Valid() && headline in Live()
      requires headline in locations && locations[headline] <= n
      modifies this`staleness, this`locations, heap
      ensures Valid() && staleness == old(staleness)[headline := newWeight]
      ensures multiset(Live()) == multiset(old(Live()))
      ensures r.Fail? <==> old(locations[headline]) == 0 && newWeight <= old(staleness[headline]) && heap[0] !in staleness
      ensures r.Fail? ==> r.failure == NotFound && heap[..] == old(heap[..]) && locations == old(locations)
      ensures r.Done? ==> Tracks(headline) && forall i :: 1 <= i < locations[headline] ==> heap[i] != headline
      ensures r.Done? ==> forall g :: g != headline && TrackedAt(old(heap[..]), n, old(locations), g) ==> Tracks(g)
      ensures RecordsKept(old(locations), heap[..], locations, n)
      ensures newWeight <= old(staleness[headline]) && old(locations[headline]) == Root() ==> heap[..] == old(heap[..])
      ensures old(HeapOrdered() && OnlyAt(heap[..], n, headline, locations[headline])) ==> r.Done? && HeapOrdered()
    {
      ghost var a: seq<Headline>, l := heap[..], locations;
      ghost var live := Live();
      assert live == a[1..n + 1];
      var ok := Resift(headline, newWeight);
      assert multiset(Live()) == multiset(live);
      if !ok {
        return Fail(NotFound);
      }
      assert headline in multiset(Live());
      ghost var b: seq<Headline>, l' := heap[..], locations;
      Relocate(headline);
      forall g | g != headline && TrackedAt(a, n, l, g)
        ensures Tracks(g)
      {
        assert TrackedAt(b, n, l', g);
      }
      RecordsKeptTrans(l, b, l', heap[..], locations, n);
      return Done;
    }
  }
}
