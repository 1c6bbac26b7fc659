/**
 * Concrete runs of the news feed, proved from the contracts of Feed alone.
 */
module Scenarios {
  import opened Wrappers
  import opened Feed
  import opened Heaps

  /**
   * enqueue records the slot count from before the increment, so a headline
   * that bubble does not move is recorded one slot low. Here J stays in slot
   * 2 but is recorded at slot 1, the root; reweight then bubbles from the
   * root, which moves nothing, and peek still names Flash although J is now
   * the least stale.
   */
  method StaleReweight() returns (top: Result<Headline>, topWeight: Result<Staleness>, movedWeight: Result<Staleness>)
    ensures top == Ok("Flash") && topWeight == Ok(1) && movedWeight == Ok(0)
  {
    var feed := Pair("Flash", "J", "story of a fast dude", "JJJ story");
    var done := feed.Reweight("J", 0);
    top := feed.Peek();
    topWeight := feed.Weight("Flash");
    movedWeight := feed.Weight("J");
  }

  /**
   * A record left one slot low survives a later enqueue: after Pair, B is
   * recorded at slot 1, and enqueueing C either leaves that record or makes
   * it right, so reweight of B is still allowed and does not throw.
   */
  method LateReweight() returns (r: Outcome, movedWeight: Result<Staleness>)
    ensures r == Done && movedWeight == Ok(0)
  {
    var feed := Pair("A", "B", "sa", "sb");
    assert feed.Live()[1] == "B";
    ghost var slot := feed.Enqueue("C", "sc", 3);
    assert "B" in multiset(feed.Live());
    r := feed.Reweight("B", 0);
    movedWeight := feed.Weight("B");
  }

  /** Two enqueues, the second heavier: it stays in slot 2 but is recorded at slot 1. */
  method Pair(x: Headline, y: Headline, sx: Story, sy: Story) returns (feed: NewsFeed)
    requires x != y
    ensures fresh(feed) && fresh(feed.heap) && feed.Valid() && feed.n == 2
    ensures feed.heap[1] == x && feed.heap[2] == y
    ensures y in feed.locations && feed.locations[y] == 1
    ensures x in feed.staleness && y in feed.staleness && feed.staleness[x] == 1 && feed.staleness[y] == 2
  {
    feed := new NewsFeed();
    ghost var first := feed.Enqueue(x, sx, 1);
    ghost var second := feed.Enqueue(y, sy, 2);
    assert multiset(feed.Live()) == multiset{x, y};
    assert feed.heap[1] == x && feed.heap[2] == y by {
      assert feed.heap[1] in multiset(feed.Live()) && feed.heap[2] in multiset(feed.Live());
      assert feed.HeapOrdered();
      assert feed.staleness[feed.heap[2 / 2]] <= feed.staleness[feed.heap[2]];
      assert multiset(feed.Live()) == multiset{feed.heap[1], feed.heap[2]};
    }
  }

  /** enqueue of a headline not yet queued onto an ordered heap. */
  method Insert(feed: NewsFeed, h: Headline, story: Story, weight: Staleness) returns (ghost slot: nat)
    requires feed.Valid() && feed.HeapOrdered() && h !in multiset(feed.Live())
    modifies feed, feed.heap
    ensures feed.Valid() && feed.HeapOrdered() && (feed.heap == old(feed.heap) || fresh(feed.heap))
    ensures feed.n == old(feed.n) + 1
    ensures multiset(feed.Live()) == multiset(old(feed.Live())) + multiset{h}
    ensures feed.staleness == old(feed.staleness)[h := weight] && feed.stories == old(feed.stories)[h := story]
    ensures 1 <= slot <= feed.n && feed.heap[slot] == h && (slot != feed.n ==> feed.Tracks(h))
  {
    slot := feed.Enqueue(h, story, weight);
  }

  /**
   * enqueue onto a non-empty ordered heap of a headline lighter than all
   * queued ones: it bubbles to the root, so unlike a headline that stays in
   * the last slot, its recorded slot is right.
   */
  method InsertLightest(feed: NewsFeed, h: Headline, story: Story, weight: Staleness)
    requires feed.Valid() && feed.HeapOrdered() && feed.n > 0 && h !in multiset(feed.Live())
    requires forall g | g in multiset(feed.Live()) :: g in feed.staleness && weight < feed.staleness[g]
    modifies feed, feed.heap
    ensures feed.Valid() && feed.HeapOrdered() && (feed.heap == old(feed.heap) || fresh(feed.heap))
    ensures feed.n == old(feed.n) + 1
    ensures multiset(feed.Live()) == multiset(old(feed.Live())) + multiset{h}
    ensures feed.staleness == old(feed.staleness)[h := weight] && feed.stories == old(feed.stories)[h := story]
    ensures feed.heap[1] == h && feed.Tracks(h)
  {
    ghost var slot := Insert(feed, h, story, weight);
    ghost var a := feed.heap[..];
    assert a[1..feed.n + 1] == feed.Live();
    LightestAtRoot(a, feed.n, feed.staleness, h);
    OnlyOnce(a, feed.n, h, 1);
  }

  /** dequeue of an ordered heap whose root is h. */
  method Drop(feed: NewsFeed, h: Headline)
    requires feed.Valid() && feed.HeapOrdered() && feed.n > 0 && feed.heap[1] == h
    modifies feed, feed.heap
    ensures feed.Valid() && feed.HeapOrdered() && feed.heap == old(feed.heap) && feed.n == old(feed.n) - 1
    ensures multiset(feed.Live()) == multiset(old(feed.Live())) - multiset{h}
    ensures feed.staleness == old(feed.staleness) && feed.stories == old(feed.stories)
  {
    var done := feed.Dequeue();
  }

  /** reweight of a headline queued once whose recorded slot is right. */
  method Restale(feed: NewsFeed, h: Headline, weight: Staleness)
    requires feed.Valid() && feed.HeapOrdered() && multiset(feed.Live())[h] == 1 && feed.Tracks(h)
    modifies feed, feed.heap
    ensures feed.Valid() && feed.HeapOrdered() && feed.heap == old(feed.heap) && feed.n == old(feed.n)
    ensures multiset(feed.Live()) == multiset(old(feed.Live()))
    ensures feed.staleness == old(feed.staleness)[h := weight] && feed.stories == old(feed.stories)
  {
    OnlyOnce(feed.heap[..], feed.n, h, feed.locations[h]);
    var done := feed.Reweight(h, weight);
  }

  /** The first three enqueues of the p5 driver. */
  method Opening(a: Headline, b: Headline, c: Headline, sa: Story, sb: Story, sc: Story) returns (feed: NewsFeed)
    requires a != b && a != c && b != c
    ensures fresh(feed) && fresh(feed.heap) && feed.Valid() && feed.HeapOrdered() && feed.n == 3
    ensures multiset(feed.Live()) == multiset{a, b, c}
    ensures feed.staleness == map[a := 1, b := 2, c := 3]
    ensures a in feed.stories && b in feed.stories && feed.stories[a] == sa && feed.stories[b] == sb
  {
    feed := new NewsFeed();
    ghost var slot := Insert(feed, a, sa, 1);
    slot := Insert(feed, b, sb, 2);
    slot := Insert(feed, c, sc, 3);
  }

  /**
   * The opening of the p5 driver: four enqueues and a reweight. The last
   * headline enters lighter than everything and bubbles to the root, so its
   * recorded slot is right, and reweight percolates it back down.
   */
  method Fill(a: Headline, b: Headline, c: Headline, d: Headline, sa: Story, sb: Story, sc: Story, sd: Story) returns (feed: NewsFeed)
    requires a != b && a != c && a != d && b != c && b != d && c != d
    ensures fresh(feed) && fresh(feed.heap) && feed.Valid() && feed.HeapOrdered()
    ensures multiset(feed.Live()) == multiset{a, b, c, d}
    ensures a in feed.staleness && b in feed.staleness && c in feed.staleness && d in feed.staleness
    ensures feed.staleness[a] == 1 && feed.staleness[b] == 2 && feed.staleness[c] == 3 && feed.staleness[d] == 4
    ensures a in feed.stories && b in feed.stories && feed.stories[a] == sa && feed.stories[b] == sb
  {
    feed := Opening(a, b, c, sa, sb, sc);
    InsertLightest(feed, d, sd, -1);
    Restale(feed, d, 4);
  }

  /** peek on an ordered heap whose least stale live headline is h alone. */
  method Lightest(feed: NewsFeed, h: Headline) returns (top: Result<Headline>)
    requires feed.Valid() && feed.HeapOrdered() && h in multiset(feed.Live()) && h in feed.staleness
    requires forall g | g in multiset(feed.Live()) && g != h :: g in feed.staleness && feed.staleness[h] < feed.staleness[g]
    ensures top == Ok(h) && feed.n > 0 && feed.heap[1] == h
  {
    top := feed.Peek();
    ghost var k :| 0 <= k < |feed.Live()| && feed.Live()[k] == h;
    assert feed.heap[k + 1] == h;
    assert top.value in multiset(feed.Live());
  }

  /** peek, get and weight, when h is the least stale and `rest` stays queued. */
  method Inspect(feed: NewsFeed, h: Headline, rest: multiset<Headline>)
    returns (top: Result<Headline>, story: Result<Story>, weight: Result<Staleness>)
    requires feed.Valid() && feed.HeapOrdered() && multiset(feed.Live()) == rest + multiset{h} && h in feed.staleness
    requires forall g | g in rest :: g in feed.staleness && feed.staleness[h] < feed.staleness[g]
    ensures feed.n > 0 && feed.heap[1] == h
    ensures top == Ok(h) && h in feed.stories && story == Ok(feed.stories[h]) && weight == Ok(feed.staleness[h])
  {
    top := Lightest(feed, h);
    story := feed.Get(top.value);
    weight := feed.Weight(top.value);
  }

  /** peek, get, weight, dequeue and empty, when h is the least stale and `rest` stays queued. */
  method FrontRound(feed: NewsFeed, h: Headline, rest: multiset<Headline>)
    returns (top: Result<Headline>, story: Result<Story>, weight: Result<Staleness>, empty: bool)
    requires feed.Valid() && feed.HeapOrdered() && multiset(feed.Live()) == rest + multiset{h} && h in feed.staleness
    requires forall g | g in rest :: g in feed.staleness && feed.staleness[h] < feed.staleness[g]
    modifies feed, feed.heap
    ensures feed.Valid() && feed.HeapOrdered() && feed.heap == old(feed.heap) && multiset(feed.Live()) == rest
    ensures feed.staleness == old(feed.staleness) && feed.stories == old(feed.stories)
    ensures top == Ok(h) && h in feed.stories && story == Ok(feed.stories[h]) && weight == Ok(feed.staleness[h])
    ensures empty <==> rest == multiset{}
  {
    top, story, weight := Inspect(feed, h, rest);
    Drop(feed, h);
    empty := feed.Empty();
  }

  /** peek and dequeue, when h is the least stale and `rest` stays queued. */
  method QuietRound(feed: NewsFeed, h: Headline, rest: multiset<Headline>) returns (top: Result<Headline>)
    requires feed.Valid() && feed.HeapOrdered() && multiset(feed.Live()) == rest + multiset{h} && h in feed.staleness
    requires forall g | g in rest :: g in feed.staleness && feed.staleness[h] < feed.staleness[g]
    modifies feed, feed.heap
    ensures feed.Valid() && feed.HeapOrdered() && feed.heap == old(feed.heap) && multiset(feed.Live()) == rest
    ensures feed.staleness == old(feed.staleness) && feed.stories == old(feed.stories)
    ensures top == Ok(h)
  {
    top := Lightest(feed, h);
    Drop(feed, top.value);
  }

  /** peek, weight, dequeue and empty on a heap holding h alone. */
  method LastRound(feed: NewsFeed, h: Headline) returns (top: Result<Headline>, weight: Result<Staleness>, empty: bool)
    requires feed.Valid() && feed.HeapOrdered() && multiset(feed.Live()) == multiset{h} && h in feed.staleness
    modifies feed, feed.heap
    ensures top == Ok(h) && weight == Ok(old(feed.staleness)[h]) && empty
  {
    top := Lightest(feed, h);
    weight := feed.Weight(top.value);
    Drop(feed, top.value);
    empty := feed.Empty();
  }

  /**
   * The p5 driver for any four distinct headlines: what it prints for each
   * peek, get, weight and empty, in order. Each peek names the least stale
   * headline still queued.
   */
  method Replay(a: Headline, b: Headline, c: Headline, d: Headline, sa: Story, sb: Story, sc: Story, sd: Story)
    returns (peeks: seq<Result<Headline>>, stories: seq<Result<Story>>, weights: seq<Result<Staleness>>, empties: seq<bool>)
    requires a != b && a != c && a != d && b != c && b != d && c != d
    ensures peeks == [Ok(a), Ok(b), Ok(c), Ok(d)]
    ensures stories == [Ok(sa), Ok(sb)]
    ensures weights == [Ok(1), Ok(2), Ok(4)]
    ensures empties == [false, false, true]
  {
    var feed := Fill(a, b, c, d, sa, sb, sc, sd);
    var peek1, story1, weight1, empty1 := FrontRound(feed, a, multiset{b, c, d});
    var peek2, story2, weight2, empty2 := FrontRound(feed, b, multiset{c, d});
    var peek3 := QuietRound(feed, c, multiset{d});
    var peek4, weight4, empty4 := LastRound(feed, d);
    peeks, stories, weights, empties := [peek1, peek2, peek3, peek4], [story1, story2], [weight1, weight2, weight4], [empty1, empty2, empty4];
  }

  /** p5.cpp, lines 14 to 38, with its own headlines and stories. */
  method Driver() returns (peeks: seq<Result<Headline>>, stories: seq<Result<Story>>, weights: seq<Result<Staleness>>, empties: seq<bool>)
    ensures peeks == [Ok("Flash"), Ok("J"), Ok("K"), Ok("L")]
    ensures stories == [Ok("story of a fast dude"), Ok("JJJ story")]
    ensures weights == [Ok(1), Ok(2), Ok(4)]
    ensures empties == [false, false, true]
  {
    peeks, stories, weights, empties := Replay("Flash", "J", "K", "L", "story of a fast dude", "JJJ story", "KKK story", "LLL story");
  }
}
