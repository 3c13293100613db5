/** The stored wishlist: the array of book ids kept under the `wishlist`
    key, and the two ways the pages change it. The browse page and the
    detail page share the toggle; the wishlist page removes. */
module WishlistStore {
  import opened Seqs

  /** Reference definition: s with its first occurrence of id deleted. */
  function RemoveFirst(s: seq<int>, id: int): seq<int>
    decreases |s|
  {
    if |s| == 0 then []
    else if s[0] == id then s[1..]
    else [s[0]] + RemoveFirst(s[1..], id)
  }

  /** The click handler's update: indexOf, then push when absent or
      splice(index, 1) when present. An absent id is appended at the end. */
  function Toggle(w: seq<int>, id: int): (r: seq<int>)
    ensures id !in w ==> r == w + [id]
    ensures id in w ==> |r| == |w| - 1
  {
    var i := IndexOf(w, id);
    if i == -1 then w + [id] else w[..i] + w[i + 1..]
  }

  /** `splice(i, 1)`: the elements before i stay put, the ones after move
      down by one, and only the element at i is lost. */
  lemma SpliceAt(w: seq<int>, i: int)
    requires 0 <= i < |w|
    ensures |w[..i] + w[i + 1..]| == |w| - 1
    ensures forall k :: 0 <= k < i ==> (w[..i] + w[i + 1..])[k] == w[k]
    ensures forall k :: i < k < |w| ==> (w[..i] + w[i + 1..])[k - 1] == w[k]
    ensures forall k :: 0 <= k < |w| && k != i ==> w[k] in w[..i] + w[i + 1..]
    ensures forall x :: x in w[..i] + w[i + 1..] ==> x in w
  {
    var r := w[..i] + w[i + 1..];
    forall k | 0 <= k < |w| && k != i
      ensures w[k] in r
    {
      if k < i {
        assert r[k] == w[k];
      } else {
        assert r[k - 1] == w[k];
      }
    }
  }

  /** A toggle changes the number of occurrences of the toggled id only:
      an absent id occurs once afterwards, a present id loses exactly one
      occurrence. */
  lemma ToggleCounts(w: seq<int>, id: int)
    ensures multiset(Toggle(w, id))[id] == if id in w then multiset(w)[id] - 1 else 1
    ensures forall x :: x != id ==> multiset(Toggle(w, id))[x] == multiset(w)[x]
  {
    if id in w {
      var i := IndexOf(w, id);
      assert w == w[..i] + [w[i]] + w[i + 1..];
      assert Toggle(w, id) == w[..i] + w[i + 1..];
    }
  }

  /** Deleting the first occurrence at a known position i is splicing i. */
  lemma {:induction false} RemoveFirstAt(s: seq<int>, id: int, i: int)
    requires 0 <= i < |s| && s[i] == id && id !in s[..i]
    ensures RemoveFirst(s, id) == s[..i] + s[i + 1..]
    decreases i
  {
    if i > 0 {
      var t := s[1..];
      assert s[0] != id by { assert s[..i][0] == s[0]; }
      assert t[..i - 1] == s[1..i];
      assert id !in t[..i - 1] by { assert s[1..i] == s[..i][1..]; }
      RemoveFirstAt(t, id, i - 1);
      assert s[..i] == [s[0]] + t[..i - 1];
      assert s[i + 1..] == t[i..];
    }
  }

  lemma {:induction false} RemoveFirstIsSubseq(s: seq<int>, id: int)
    ensures IsSubseq(RemoveFirst(s, id), s)
    decreases |s|
  {
    if |s| > 0 {
      if s[0] == id {
        SubseqRefl(s[1..]);
        var r := s[1..];
        if |r| > 0 {
          assert IsSubseq(r, s[1..]);
        }
      } else {
        RemoveFirstIsSubseq(s[1..], id);
      }
    }
  }

  /** Toggling a present id removes exactly its first occurrence: the
      result is the reference RemoveFirst, one shorter, and the remaining
      ids keep their relative order. */
  lemma TogglePresentRemovesFirst(w: seq<int>, id: int)
    requires id in w
    ensures Toggle(w, id) == RemoveFirst(w, id)
    ensures |Toggle(w, id)| == |w| - 1
    ensures IsSubseq(Toggle(w, id), w)
  {
    var i := IndexOf(w, id);
    assert Toggle(w, id) == w[..i] + w[i + 1..];
    RemoveFirstAt(w, id, i);
    RemoveFirstIsSubseq(w, id);
  }

  /** On a duplicate-free list the toggled id changes membership and every
      other id keeps it. */
  lemma ToggleFlipsMembership(w: seq<int>, id: int)
    requires NoDup(w)
    ensures id in Toggle(w, id) <==> id !in w
    ensures forall x :: x != id ==> (x in Toggle(w, id) <==> x in w)
  {
    if id in w {
      var i := IndexOf(w, id);
      var r := w[..i] + w[i + 1..];
      assert Toggle(w, id) == r;
      SpliceAt(w, i);
      assert id !in w[i + 1..] by {
        forall k | i + 1 <= k < |w| ensures w[k] != id {}
      }
      forall x | x != id && x in w
        ensures x in r
      {
        var k :| 0 <= k < |w| && w[k] == x;
      }
    }
  }

  /** Splicing one element out of a duplicate-free list leaves it
      duplicate-free. */
  lemma SpliceNoDup(w: seq<int>, i: int)
    requires NoDup(w) && 0 <= i < |w|
    ensures NoDup(w[..i] + w[i + 1..])
  {
    var r := w[..i] + w[i + 1..];
    forall a, b | 0 <= a < b < |r|
      ensures r[a] != r[b]
    {
      var a' := if a < i then a else a + 1;
      var b' := if b < i then b else b + 1;
      assert r[a] == w[a'];
      assert r[b] == w[b'];
    }
  }

  /** Toggling keeps a duplicate-free wishlist duplicate-free. */
  lemma TogglePreservesNoDup(w: seq<int>, id: int)
    requires NoDup(w)
    ensures NoDup(Toggle(w, id))
  {
    if id in w {
      var i := IndexOf(w, id);
      assert Toggle(w, id) == w[..i] + w[i + 1..];
      SpliceNoDup(w, i);
    } else {
      var r := w + [id];
      assert Toggle(w, id) == r;
      forall a, b | 0 <= a < b < |r|
        ensures r[a] != r[b]
      {
        if b == |w| {
          assert r[a] == w[a];
        }
      }
    }
  }

  /** With duplicates (which no handler creates) one toggle of a present id
      leaves it present: the flip needs a duplicate-free list. */
  lemma ToggleWithDuplicateKeepsMember()
    ensures 5 in Toggle([5, 5], 5)
  {
  }

  /** Adding an absent id and toggling it again restores the list. */
  lemma ToggleTwiceRestores(w: seq<int>, id: int)
    requires id !in w
    ensures Toggle(Toggle(w, id), id) == w
  {
    var w1 := Toggle(w, id);
    assert w1 == w + [id];
    var i := IndexOf(w1, id);
    assert i == |w|;
    assert w1[..i] == w;
    assert w1[i + 1..] == [];
  }

  /** The state after a series of clicks on the ids in `clicks`. */
  function ToggleAll(w: seq<int>, clicks: seq<int>): seq<int>
    decreases |clicks|
  {
    if |clicks| == 0 then w else ToggleAll(Toggle(w, clicks[0]), clicks[1..])
  }

  /** Any series of clicks keeps a duplicate-free list duplicate-free. */
  lemma {:induction false} ToggleAllNoDup(w: seq<int>, clicks: seq<int>)
    requires NoDup(w)
    ensures NoDup(ToggleAll(w, clicks))
    decreases |clicks|
  {
    if |clicks| > 0 {
      TogglePreservesNoDup(w, clicks[0]);
      ToggleAllNoDup(Toggle(w, clicks[0]), clicks[1..]);
    }
  }

  /** Starting from a duplicate-free list, an id is listed after a series
      of clicks exactly when it was listed before xor it was clicked an odd
      number of times. */
  lemma {:induction false} ToggleParity(w: seq<int>, clicks: seq<int>, x: int)
    requires NoDup(w)
    ensures x in ToggleAll(w, clicks) <==> ((x in w) != Odd(multiset(clicks)[x]))
    decreases |clicks|
  {
    if |clicks| > 0 {
      var c := clicks[0];
      var w1 := Toggle(w, c);
      var rest := clicks[1..];
      assert ToggleAll(w, clicks) == ToggleAll(w1, rest);
      TogglePreservesNoDup(w, c);
      ToggleFlipsMembership(w, c);
      var before: bool := x in w;
      var mid: bool := x in w1;
      assert mid == (before != (x == c));
      ToggleParity(w1, rest, x);
      var m := multiset(rest)[x];
      CountFirst(clicks, x);
      assert multiset(clicks)[x] == m + (if x == c then 1 else 0);
    }
  }

  /** n is odd, counted down one click at a time. */
  predicate Odd(n: nat)
  {
    if n == 0 then false else !Odd(n - 1)
  }

  lemma CountFirst(s: seq<int>, x: int)
    requires |s| > 0
    ensures multiset(s)[x] == multiset(s[1..])[x] + (if x == s[0] then 1 else 0)
  {
    assert s == [s[0]] + s[1..];
  }

  /** Filter predicate of the remove handler. */
  function Other(id: int): int -> bool
  {
    x => x != id
  }

  /** The remove handler's update, `filter(x => x !== id)`: no occurrence
      of id survives and every other id keeps its number of occurrences. */
  function RemoveAll(w: seq<int>, id: int): (r: seq<int>)
    ensures id !in r
    ensures forall x :: x != id ==> multiset(r)[x] == multiset(w)[x]
  {
    KeepCount(w, Other(id));
    Keep(w, Other(id))
  }

  /** Removal keeps the remaining ids in their original relative order and
      works piecewise over any split of the list. */
  lemma RemoveAllKeepsOrder(a: seq<int>, b: seq<int>, id: int)
    ensures IsSubseq(RemoveAll(a, id), a)
    ensures RemoveAll(a + b, id) == RemoveAll(a, id) + RemoveAll(b, id)
  {
    KeepIsSubseq(a, Other(id));
    KeepAppend(a, b, Other(id));
  }

  /** Removing an absent id changes nothing, and removing twice is the same
      as removing once. */
  lemma RemoveAllIdempotent(w: seq<int>, id: int)
    ensures id !in w ==> RemoveAll(w, id) == w
    ensures RemoveAll(RemoveAll(w, id), id) == RemoveAll(w, id)
  {
    KeepAll(RemoveAll(w, id), Other(id));
    if id !in w {
      KeepAll(w, Other(id));
    }
  }

  /** The remove handler keeps a duplicate-free wishlist duplicate-free. */
  lemma RemoveAllPreservesNoDup(w: seq<int>, id: int)
    requires NoDup(w)
    ensures NoDup(RemoveAll(w, id))
  {
    KeepNoDup(w, Other(id));
  }

  /** On a duplicate-free list, toggling a present id (browse and detail
      pages) and removing it (wishlist page) agree. */
  lemma ToggleAgreesWithRemove(w: seq<int>, id: int)
    requires NoDup(w) && id in w
    ensures Toggle(w, id) == RemoveAll(w, id)
  {
    var i := IndexOf(w, id);
    assert Toggle(w, id) == w[..i] + w[i + 1..];
    assert w == w[..i] + ([w[i]] + w[i + 1..]);
    KeepAppend(w[..i], [w[i]] + w[i + 1..], Other(id));
    KeepAppend([w[i]], w[i + 1..], Other(id));
    assert forall x :: x in w[..i] ==> x != id;
    assert id !in w[i + 1..] by {
      forall k | i + 1 <= k < |w| ensures w[k] != id {}
    }
    KeepAll(w[..i], Other(id));
    KeepAll(w[i + 1..], Other(id));
  }
}
