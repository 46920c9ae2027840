/** The page cache: least recently used pages are evicted first. */
module Lru {
  import opened Types

  type PageId = nat

  // ---- Recency as a stack, most recent last.

  function Removed(s: seq<PageId>, p: PageId): seq<PageId> {
    if s == [] then []
    else Removed(s[..|s| - 1], p) + if s[|s| - 1] == p then [] else [s[|s| - 1]]
  }

  lemma {:induction false} RemovedElements(s: seq<PageId>, p: PageId)
    ensures forall q :: q in Removed(s, p) <==> q in s && q != p
    ensures p !in s ==> Removed(s, p) == s
  {
    if s != [] {
      RemovedElements(s[..|s| - 1], p);
      assert s == s[..|s| - 1] + [s[|s| - 1]];
    }
  }

  lemma {:induction false} RemovedDistinct(s: seq<PageId>, p: PageId)
    requires Distinct(s)
    ensures Distinct(Removed(s, p))
    ensures |Removed(s, p)| == if p in s then |s| - 1 else |s|
  {
    if s != [] {
      var init, last := s[..|s| - 1], s[|s| - 1];
      assert s == init + [last];
      RemovedElements(init, p);
      RemovedDistinct(init, p);
      assert last !in init;
    }
  }

  lemma {:induction false} RemovedConcat(a: seq<PageId>, b: seq<PageId>, p: PageId)
    ensures Removed(a + b, p) == Removed(a, p) + Removed(b, p)
    decreases |b|
  {
    if b == [] {
      assert a + b == a;
    } else {
      assert (a + b)[..|a + b| - 1] == a + b[..|b| - 1];
      RemovedConcat(a, b[..|b| - 1], p);
    }
  }

  /** The distinct pages of a touch history, by their last touch. */
  function Stack(touches: seq<PageId>): seq<PageId> {
    if touches == [] then []
    else Removed(Stack(touches[..|touches| - 1]), touches[|touches| - 1]) + [touches[|touches| - 1]]
  }

  lemma {:induction false} StackDistinct(touches: seq<PageId>)
    ensures Distinct(Stack(touches))
    ensures forall p :: p in Stack(touches) <==> p in touches
  {
    if touches != [] {
      var init, last := touches[..|touches| - 1], touches[|touches| - 1];
      assert touches == init + [last];
      StackDistinct(init);
      RemovedElements(Stack(init), last);
      RemovedDistinct(Stack(init), last);
    }
  }

  lemma StackTouch(touches: seq<PageId>, p: PageId)
    ensures Stack(touches + [p]) == Removed(Stack(touches), p) + [p]
  {
    assert (touches + [p])[..|touches|] == touches;
  }

  function Last(s: seq<PageId>, n: nat): seq<PageId> {
    if n < |s| then s[|s| - n..] else s
  }

  lemma LastOf(a: seq<PageId>, b: seq<PageId>, n: nat)
    requires n <= |b|
    ensures Last(a + b, n) == Last(b, n)
  {
  }

  /** The `n` most recently touched distinct pages. */
  function Recent(touches: seq<PageId>, n: nat): seq<PageId> {
    Last(Stack(touches), n)
  }

  /** A touched page moves to the end of the window; a new one pushes the oldest out of a full one. */
  function Touched(w: seq<PageId>, p: PageId, n: nat): seq<PageId> {
    if p in w then Removed(w, p) + [p]
    else if |w| < n then w + [p]
    else if w == [] then [p]
    else w[1..] + [p]
  }

  lemma RecentTouch(touches: seq<PageId>, p: PageId, n: nat)
    requires n >= 1
    ensures Recent(touches + [p], n) == Touched(Recent(touches, n), p, n)
  {
    hide Removed, Distinct;
    var s, w := Stack(touches), Recent(touches, n);
    StackTouch(touches, p);
    StackDistinct(touches);
    RemovedElements(s, p);
    RemovedDistinct(s, p);
    if n < |s| {
      assert s == s[..|s| - n] + w;
      TouchFull(s[..|s| - n], w, p, n);
    }
  }

  lemma TouchFull(older: seq<PageId>, w: seq<PageId>, p: PageId, n: nat)
    requires Distinct(older + w) && |w| == n >= 1
    ensures Last(Removed(older + w, p) + [p], n) == Touched(w, p, n)
  {
    hide Removed;
    RemovedConcat(older, w, p);
    RemovedElements(older, p);
    RemovedElements(w, p);
    assert Distinct(w) by {
      assert forall i :: 0 <= i < |w| ==> (older + w)[|older| + i] == w[i];
    }
    RemovedDistinct(w, p);
    var kept := Removed(older, p);
    assert kept + Removed(w, p) + [p] == kept + (Removed(w, p) + [p]);
    LastOf(kept, Removed(w, p) + [p], n);
  }

  /** The window of a smaller cache is the recent end of the window of a larger one. */
  lemma RecentNested(touches: seq<PageId>, n: nat, m: nat)
    requires n <= m
    ensures Recent(touches, n) == Last(Recent(touches, m), n)
  {
  }

  lemma {:induction false} DistinctSize(s: seq<PageId>, elems: set<PageId>)
    requires Distinct(s) && forall p :: p in s <==> p in elems
    ensures |elems| == |s|
    decreases |s|
  {
    if s == [] {
      assert elems == {};
    } else {
      var init, last := s[..|s| - 1], s[|s| - 1];
      assert s == init + [last];
      DistinctSize(init, elems - {last});
    }
  }

  // ---- The cache.

  /** The place of a page in the queue. */
  function PlaceOf(s: seq<PageId>, p: PageId): (r: Option<nat>)
    ensures r.Some? ==> r.value < |s| && s[r.value] == p
    ensures r.None? <==> p !in s
  {
    if s == [] then None
    else if s[0] == p then Some(0)
    else
      match PlaceOf(s[1..], p)
      case None => None
      case Some(i) => Some(i + 1)
  }

  lemma RemovedOne(p: PageId)
    ensures Removed([p], p) == []
  {
    assert [p][..0] == [];
  }

  lemma RemovedAt(s: seq<PageId>, i: nat)
    requires Distinct(s) && i < |s|
    ensures s[..i] + s[i + 1..] == Removed(s, s[i])
  {
    hide Removed;
    var a, b, p := s[..i], s[i + 1..], s[i];
    assert s == (a + [p]) + b;
    RemovedConcat(a + [p], b, p);
    RemovedConcat(a, [p], p);
    RemovedElements(a, p);
    RemovedElements(b, p);
    RemovedOne(p);
    assert p !in a && p !in b;
  }

  class LruCache<B> {
    const maxPages: nat
    var pages: map<PageId, B>
    var order: seq<PageId>

    ghost var touches: seq<PageId>    // every hit and every insertion, in time order

    /** An insertion makes room for itself even in a cache of size 0. */
    ghost function Capacity(): nat {
      if maxPages == 0 then 1 else maxPages
    }

    ghost predicate Valid()
      reads this
    {
      && Distinct(order)
      && (forall p :: p in order <==> p in pages)
      && order == Recent(touches, Capacity())
    }

    constructor (maxPages: nat)
      ensures Valid() && pages == map[] && touches == [] && this.maxPages == maxPages
    {
      this.maxPages := maxPages;
      pages, order, touches := map[], [], [];
    }

    method Len() returns (n: nat)
      requires Valid()
      ensures n == |pages| == |order| <= Capacity()
    {
      DistinctSize(order, pages.Keys);
      n := |pages|;
    }

    method Touch(p: PageId)
      requires Distinct(order)
      modifies this`order
      ensures order == Removed(old(order), p) + [p]
    {
      hide Removed;
      RemovedElements(order, p);
      var at := PlaceOf(order, p);
      if at.Some? {
        RemovedAt(order, at.value);
        order := order[..at.value] + order[at.value + 1..];
      }
      order := order + [p];
    }

    method Get(p: PageId) returns (r: Option<B>)
      requires Valid()
      modifies this`order, this`touches
      ensures Valid() && pages == old(pages)
      ensures r == if p in pages then Some(pages[p]) else None
      ensures touches == if p in pages then old(touches) + [p] else old(touches)
    {
      hide Removed, Recent;
      if p !in pages { return None; }
      RemovedElements(order, p);
      RemovedDistinct(order, p);
      RecentTouch(touches, p, Capacity());
      touches := touches + [p];
      Touch(p);
      r := Some(pages[p]);
    }

    method Evict()
      requires Distinct(order) && |order| <= Capacity()
      requires forall p :: p in order <==> p in pages
      modifies this`pages, this`order
      ensures order == if |old(order)| < Capacity() then old(order) else old(order)[1..]
      ensures Distinct(order) && forall p :: p in order <==> p in pages
      ensures forall p :: p in pages ==> p in old(pages) && pages[p] == old(pages)[p]
    {
      hide Distinct;
      ghost var window := order;
      DistinctSize(order, pages.Keys);
      while |pages| >= maxPages && order != []
        invariant Distinct(order) && |pages| == |order|
        invariant forall p :: p in order <==> p in pages
        invariant forall p :: p in pages ==> p in old(pages) && pages[p] == old(pages)[p]
        invariant order == window || (|window| == Capacity() && order == window[1..])
        decreases |order|
      {
        DistinctTail(order);
        var evicted := order[0];
        order := order[1..];
        pages := pages - {evicted};
      }
    }

    /** The page is cached; every other page cached afterwards was cached with the same body before. */
    method Insert(p: PageId, body: B)
      requires Valid()
      modifies this`pages, this`order, this`touches
      ensures Valid() && touches == old(touches) + [p]
      ensures p in pages && pages[p] == body
      ensures forall q :: q in pages && q != p ==> q in old(pages) && pages[q] == old(pages)[q]
    {
      hide Removed, Recent, Distinct, Touched, PlaceOf;
      RecentTouch(touches, p, Capacity());
      RecentBounded(touches, Capacity());
      touches := touches + [p];
      RemovedElements(order, p);
      RemovedDistinct(order, p);
      if p in pages {
        pages := pages[p := body];
        Touch(p);
        DistinctSnoc(Removed(old(order), p), p);
        TouchedHit(old(order), p, Capacity());
        return;
      }
      TouchedMiss(order, p, Capacity());
      Evict();
      RemovedElements(order, p);
      DistinctSnoc(order, p);
      pages := pages[p := body];
      Touch(p);
    }
  }

  lemma RecentBounded(touches: seq<PageId>, n: nat)
    ensures |Recent(touches, n)| <= n
  {
  }

  lemma TouchedHit(w: seq<PageId>, p: PageId, n: nat)
    requires p in w
    ensures Touched(w, p, n) == Removed(w, p) + [p]
  {
  }

  lemma TouchedMiss(w: seq<PageId>, p: PageId, n: nat)
    requires p !in w && |w| <= n && n >= 1
    ensures Touched(w, p, n) == if |w| < n then w + [p] else w[1..] + [p]
  {
  }

  lemma DistinctSnoc(s: seq<PageId>, p: PageId)
    requires Distinct(s) && p !in s
    ensures Distinct(s + [p])
  {
  }

  lemma DistinctTail(s: seq<PageId>)
    requires Distinct(s) && s != []
    ensures Distinct(s[1..]) && s[0] !in s[1..]
    ensures s == [s[0]] + s[1..]
  {
  }

  /**
   The stack property: two caches with the same touches hold nested sets of pages, whatever their
   sizes.
   */
  lemma SmallerCacheContained<B>(small: LruCache<B>, large: LruCache<B>)
    requires small.Valid() && large.Valid() && small.touches == large.touches
    requires small.maxPages <= large.maxPages
    ensures small.order == Last(large.order, small.Capacity())
    ensures small.pages.Keys <= large.pages.Keys
  {
    RecentNested(small.touches, small.Capacity(), large.Capacity());
    forall p | p in small.pages ensures p in large.pages {
      assert p in small.order;
    }
  }
}
