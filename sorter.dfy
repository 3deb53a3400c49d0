/**
  catcher/sorter.go: a podcastSorter holds a slice of feeds and an ordering, and
  exposes Len, Less and Swap to the sort routine, which reorders the slice in place.
*/
module Sorter {
  import opened GoLib
  import opened CatcherTypes

  /** An ordering sort.Sort can work with: asymmetric, and such that "not before" is
      transitive. */
  ghost predicate StrictWeakOrder(order: (PodFeed, PodFeed) -> bool)
  {
    (forall p, q :: order(p, q) ==> !order(q, p)) &&
    (forall p, q, r :: !order(p, q) && !order(q, r) ==> !order(p, r))
  }

  /** No element is ordered before an element to its left. */
  ghost predicate SortedBy(s: seq<PodFeed>, order: (PodFeed, PodFeed) -> bool)
  {
    forall i, j :: 0 <= i < j < |s| ==> !order(s[j], s[i])
  }

  /** The ordering SortPodcastsByName uses: Go's byte-wise string order on names. */
  predicate NameLess(p: PodFeed, q: PodFeed)
  {
    Less(p.name, q.name)
  }

  /** Ordering by name is a strict weak order. */
  lemma NameLessStrictWeakOrder()
    ensures StrictWeakOrder(NameLess)
  {
    forall p, q | NameLess(p, q) ensures !NameLess(q, p) {
      LessAsymmetric(p.name, q.name);
    }
    forall p, q, r | !NameLess(p, q) && !NameLess(q, r) ensures !NameLess(p, r) {
      LessTotal(p.name, q.name);
      LessTotal(q.name, r.name);
      if Less(q.name, p.name) && Less(r.name, q.name) {
        LessTransitive(r.name, q.name, p.name);
        LessAsymmetric(r.name, p.name);
      } else if Less(q.name, p.name) {
        LessAsymmetric(q.name, p.name);
      } else if Less(r.name, q.name) {
        LessAsymmetric(r.name, q.name);
      } else {
        LessIrreflexive(p.name);
      }
    }
  }

  /** Sorted by name means the names are in non-decreasing byte-wise order. */
  lemma SortedByNameOrdersNames(s: seq<PodFeed>, i: nat, j: nat)
    requires SortedBy(s, NameLess)
    requires i < j < |s|
    ensures s[i].name == s[j].name || Less(s[i].name, s[j].name)
  {
    LessTotal(s[i].name, s[j].name);
  }

  class PodcastSorter {
    const podcasts: array<PodFeed>
    const order: (PodFeed, PodFeed) -> bool

    constructor (podcasts: array<PodFeed>, order: (PodFeed, PodFeed) -> bool)
      ensures this.podcasts == podcasts && this.order == order
    {
      this.podcasts := podcasts;
      this.order := order;
    }

    /** Len: the number of feeds being sorted. */
    function Len(): (n: nat)
      ensures n == podcasts.Length
    {
      podcasts.Length
    }

    /** Less: whether feed i goes before feed j under the ordering. */
    function Less(i: nat, j: nat): (before: bool)
      requires i < podcasts.Length && j < podcasts.Length
      reads podcasts
      ensures before == order(podcasts[i], podcasts[j])
    {
      order(podcasts[i], podcasts[j])
    }

    /** Swap: exchanges feeds i and j and leaves every other position unchanged. */
    method Swap(i: nat, j: nat)
      requires i < podcasts.Length && j < podcasts.Length
      modifies podcasts
      ensures podcasts[..] == old(podcasts[..])[i := old(podcasts[j])][j := old(podcasts[i])]
    {
      podcasts[i], podcasts[j] := podcasts[j], podcasts[i];
    }

    /** Sort: reorders the feeds in place, through Len, Less and Swap, into a
        permutation of themselves sorted by the ordering. sort.Sort uses insertion
        sort for short slices; the order it leaves equal feeds in is not promised. */
    method Sort()
      requires StrictWeakOrder(order)
      modifies podcasts
      ensures multiset(podcasts[..]) == old(multiset(podcasts[..]))
      ensures SortedBy(podcasts[..], order)
    {
      var n := Len();
      var k := 0;
      while k < n
        invariant 0 <= k <= n
        invariant multiset(podcasts[..]) == old(multiset(podcasts[..]))
        invariant SortedPrefix(podcasts[..], k, order)
      {
        Insert(k);
        k := k + 1;
      }
    }

    /** Moves feed k left past every feed of the sorted prefix it goes before. */
    method Insert(k: nat)
      requires StrictWeakOrder(order)
      requires k < podcasts.Length && SortedPrefix(podcasts[..], k, order)
      modifies podcasts
      ensures multiset(podcasts[..]) == old(multiset(podcasts[..]))
      ensures SortedPrefix(podcasts[..], k + 1, order)
      ensures podcasts[k + 1..] == old(podcasts[k + 1..])
    {
      var j := k;
      while 0 < j && Less(j, j - 1)
        invariant 0 <= j <= k
        invariant multiset(podcasts[..]) == old(multiset(podcasts[..]))
        invariant SortedAround(podcasts[..], k, j, order)
        invariant podcasts[k + 1..] == old(podcasts[k + 1..])
      {
        ghost var before := podcasts[..];
        SwapKeepsSortedAround(before, k, j, order);
        Swap(j, j - 1);
        assert podcasts[..] == before[j := before[j - 1]][j - 1 := before[j]];
        j := j - 1;
      }
      InsertionDone(podcasts[..], k, j, order);
    }
  }

  /** The first k elements are sorted. */
  ghost predicate SortedPrefix(s: seq<PodFeed>, k: nat, order: (PodFeed, PodFeed) -> bool)
    requires k <= |s|
  {
    forall x, y :: 0 <= x < y < k ==> !order(s[y], s[x])
  }

  /** Insertion of element k in progress, the moving element now at j: the elements up
      to k other than it are sorted, and it goes before every element to its right. */
  ghost predicate SortedAround(s: seq<PodFeed>, k: nat, j: nat, order: (PodFeed, PodFeed) -> bool)
    requires j <= k < |s|
  {
    (forall x, y :: 0 <= x < y <= k && x != j && y != j ==> !order(s[y], s[x])) &&
    (forall y :: j < y <= k ==> order(s[j], s[y]))
  }

  /** Swapping the moving element with its left neighbour, which it goes before, keeps
      the insertion invariant. */
  lemma SwapKeepsSortedAround(s: seq<PodFeed>, k: nat, j: nat, order: (PodFeed, PodFeed) -> bool)
    requires 0 < j <= k < |s| && SortedAround(s, k, j, order) && order(s[j], s[j - 1])
    ensures SortedAround(s[j := s[j - 1]][j - 1 := s[j]], k, j - 1, order)
    ensures multiset(s[j := s[j - 1]][j - 1 := s[j]]) == multiset(s)
  {
    var t := s[j := s[j - 1]][j - 1 := s[j]];
    forall x, y | 0 <= x < y <= k && x != j - 1 && y != j - 1 ensures !order(t[y], t[x]) {
      if y == j {
        assert t[y] == s[j - 1] && t[x] == s[x];
      } else if x == j {
        assert t[x] == s[j - 1] && t[y] == s[y];
      } else {
        assert t[x] == s[x] && t[y] == s[y];
      }
    }
  }

  /** When the moving element is at the front or does not go before its left
      neighbour, the first k + 1 elements are sorted. */
  lemma InsertionDone(s: seq<PodFeed>, k: nat, j: nat, order: (PodFeed, PodFeed) -> bool)
    requires StrictWeakOrder(order)
    requires j <= k < |s| && SortedAround(s, k, j, order)
    requires j == 0 || !order(s[j], s[j - 1])
    ensures SortedPrefix(s, k + 1, order)
  {
    forall x, y | 0 <= x < y <= k ensures !order(s[y], s[x]) {
      if y == j {
        if x < j - 1 {
          assert !order(s[j - 1], s[x]);
        }
      } else if x == j {
        assert order(s[j], s[y]);
      }
    }
  }
}
