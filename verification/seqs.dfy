/** Generic sequence operations that stand for the JavaScript array
    methods the pages use (indexOf, filter, insertion into a Set). */
module Seqs {

  /** No element occurs twice. */
  predicate NoDup<T(==)>(s: seq<T>)
  {
    forall i, j :: 0 <= i < j < |s| ==> s[i] != s[j]
  }

  /** Array.prototype.indexOf: the position of the first occurrence of x,
      or -1 when x does not occur. */
  function IndexOf<T(==)>(s: seq<T>, x: T): (r: int)
    ensures -1 <= r < |s|
    ensures r == -1 <==> x !in s
    ensures 0 <= r ==> s[r] == x && x !in s[..r]
    decreases |s|
  {
    if |s| == 0 then -1
    else if s[0] == x then 0
    else
      var k := IndexOf(s[1..], x);
      if k == -1 then -1
      else
        assert s[..k + 1] == [s[0]] + s[1..][..k];
        k + 1
  }

  /** a is obtained from b by deleting zero or more elements, so a keeps
      the relative order of b. */
  predicate IsSubseq<T(==)>(a: seq<T>, b: seq<T>)
    decreases |b|
  {
    if |a| == 0 then true
    else if |b| == 0 then false
    else (a[0] == b[0] && IsSubseq(a[1..], b[1..])) || IsSubseq(a, b[1..])
  }

  lemma {:induction false} SubseqRefl<T>(s: seq<T>)
    ensures IsSubseq(s, s)
    decreases |s|
  {
    if |s| > 0 {
      SubseqRefl(s[1..]);
    }
  }

  /** Array.prototype.filter: the elements satisfying p, in their order. */
  function Keep<T>(s: seq<T>, p: T -> bool): (r: seq<T>)
    ensures |r| <= |s|
    ensures forall x :: x in r ==> x in s && p(x)
    decreases |s|
  {
    if |s| == 0 then []
    else if p(s[0]) then [s[0]] + Keep(s[1..], p)
    else Keep(s[1..], p)
  }

  /** Filtering keeps the order of what it keeps. */
  lemma {:induction false} KeepIsSubseq<T>(s: seq<T>, p: T -> bool)
    ensures IsSubseq(Keep(s, p), s)
    decreases |s|
  {
    if |s| > 0 {
      KeepIsSubseq(s[1..], p);
      var r := Keep(s, p);
      if !p(s[0]) && |r| > 0 {
        assert r[0] in r;
      }
    }
  }

  /** Filtering keeps every occurrence of an accepted value and no
      occurrence of a rejected one. */
  lemma {:induction false} KeepCount<T>(s: seq<T>, p: T -> bool)
    ensures forall x :: multiset(Keep(s, p))[x] == if p(x) then multiset(s)[x] else 0
    decreases |s|
  {
    if |s| > 0 {
      KeepCount(s[1..], p);
      assert s == [s[0]] + s[1..];
    }
  }

  /** Filtering distributes over concatenation. */
  lemma {:induction false} KeepAppend<T>(a: seq<T>, b: seq<T>, p: T -> bool)
    ensures Keep(a + b, p) == Keep(a, p) + Keep(b, p)
    decreases |a|
  {
    if |a| > 0 {
      assert (a + b)[1..] == a[1..] + b;
      KeepAppend(a[1..], b, p);
    } else {
      assert a + b == b;
    }
  }

  /** Filtering a duplicate-free sequence leaves it duplicate-free. */
  lemma {:induction false} KeepNoDup<T>(s: seq<T>, p: T -> bool)
    requires NoDup(s)
    ensures NoDup(Keep(s, p))
    decreases |s|
  {
    if |s| > 0 {
      var t := s[1..];
      assert NoDup(t) by {
        forall i, j | 0 <= i < j < |t| ensures t[i] != t[j] {
          assert t[i] == s[i + 1] && t[j] == s[j + 1];
        }
      }
      KeepNoDup(t, p);
      if p(s[0]) {
        var k := Keep(t, p);
        assert s[0] !in t by {
          forall i | 0 <= i < |t| ensures t[i] != s[0] { assert t[i] == s[i + 1]; }
        }
        var r := [s[0]] + k;
        forall i, j | 0 <= i < j < |r| ensures r[i] != r[j] {
          assert r[j] == k[j - 1] && r[j] in k;
          if i > 0 {
            assert r[i] == k[i - 1];
          }
        }
      }
    }
  }

  /** Filtering a sequence whose every element is accepted changes nothing. */
  lemma {:induction false} KeepAll<T>(s: seq<T>, p: T -> bool)
    requires forall x :: x in s ==> p(x)
    ensures Keep(s, p) == s
    decreases |s|
  {
    if |s| > 0 {
      assert s[0] in s;
      assert forall x :: x in s[1..] ==> x in s;
      KeepAll(s[1..], p);
    }
  }

  /** The distinct elements of s in first-seen order: the iteration order
      of a JavaScript Set after adding the elements of s one by one. */
  function Distinct<T(==,!new)>(s: seq<T>): (r: seq<T>)
    ensures NoDup(r)
    ensures forall x :: x in r <==> x in s
    decreases |s|
  {
    if |s| == 0 then []
    else
      var init := s[..|s| - 1];
      var last := s[|s| - 1];
      assert s == init + [last];
      var d := Distinct(init);
      if last in d then d else d + [last]
  }

  /** The first occurrence of an element of a prefix is not moved by
      appending to it. */
  lemma IndexOfPrefix<T>(a: seq<T>, b: seq<T>, x: T)
    requires x in a
    ensures IndexOf(a + b, x) == IndexOf(a, x)
  {
    var i := IndexOf(a, x);
    assert (a + b)[..i] == a[..i];
    assert x in (a + b)[..i + 1] by { assert (a + b)[..i + 1][i] == x; }
  }

  /** Distinct lists the elements in the order of their first occurrence. */
  lemma {:induction false} DistinctFirstSeen<T(!new)>(s: seq<T>)
    ensures forall i, j :: 0 <= i < j < |Distinct(s)| ==>
      IndexOf(s, Distinct(s)[i]) < IndexOf(s, Distinct(s)[j])
    decreases |s|
  {
    if |s| > 0 {
      var init := s[..|s| - 1];
      var last := s[|s| - 1];
      assert s == init + [last];
      var d := Distinct(init);
      DistinctFirstSeen(init);
      forall x | x in d
        ensures IndexOf(s, x) == IndexOf(init, x)
      {
        IndexOfPrefix(init, [last], x);
      }
      var r := Distinct(s);
      if last !in d {
        assert r == d + [last];
        assert last !in init;
        assert IndexOf(s, last) == |init|;
        forall i, j | 0 <= i < j < |r|
          ensures IndexOf(s, r[i]) < IndexOf(s, r[j])
        {
          assert r[i] == d[i] && r[i] in d;
          if j < |d| {
            assert r[j] == d[j] && r[j] in d;
          }
        }
      }
    }
  }
}
