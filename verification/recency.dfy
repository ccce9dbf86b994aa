/**
 * Least-recently-used order as a reference, independent of the cache: the block
 * numbers of an access history ordered by their last access, and where an LRU cache
 * with a fixed number of slots must keep them.
 */
module Recency {
  import opened Holder

  /** s with x removed wherever it occurs; the rest keeps its order. */
  function Without(s: seq<int>, x: int): (r: seq<int>)
    ensures forall y :: y in r <==> y in s && y != x
  {
    if s == [] then []
    else (if s[0] == x then [] else [s[0]]) + Without(s[1..], x)
  }

  predicate Distinct(s: seq<int>)
  {
    forall i, j :: 0 <= i < j < |s| ==> s[i] != s[j]
  }

  /** The position of the last access to y in the history. */
  function LastIndex(history: seq<int>, y: int): (k: nat)
    requires y in history
    ensures k < |history| && history[k] == y
    ensures forall k' :: k < k' < |history| ==> history[k'] != y
  {
    var n := |history| - 1;
    if history[n] == y then n
    else
      assert history == history[..n] + [history[n]];
      assert y in history[..n];
      var k := LastIndex(history[..n], y);
      assert history[..n][k] == history[k];
      assert forall k' :: k < k' < n ==> history[..n][k'] == history[k'];
      k
  }

  /** The blocks of r appear in the order of their last access in the history. */
  predicate ByLastAccess(r: seq<int>, history: seq<int>)
    requires forall y :: y in r ==> y in history
  {
    forall i, j :: 0 <= i < j < |r| ==> LastIndex(history, r[i]) < LastIndex(history, r[j])
  }

  /** Every block of the history once, ordered by its last access, least recent first. */
  function RecencyOrder(history: seq<int>): (r: seq<int>)
    ensures Distinct(r)
    ensures forall y :: y in r <==> y in history
    ensures ByLastAccess(r, history)
    ensures history != [] ==> |r| > 0 && r[|r| - 1] == history[|history| - 1]
  {
    if history == [] then []
    else
      var last := history[|history| - 1];
      var w := Without(RecencyOrder(history[..|history| - 1]), last);
      WithoutKeepsDistinct(RecencyOrder(history[..|history| - 1]), last);
      AppendFresh(w, last);
      assert forall y :: y in history <==> y in history[..|history| - 1] || y == last by {
        assert history == history[..|history| - 1] + [last];
      }
      AccessAppended(RecencyOrder(history[..|history| - 1]), history[..|history| - 1], last);
      assert history[..|history| - 1] + [last] == history;
      w + [last]
  }

  /**
   * One more access to x: the earlier order with x taken out, then x, is ordered by
   * last access in the longer history.
   */
  lemma AccessAppended(r: seq<int>, history: seq<int>, x: int)
    requires forall y :: y in r <==> y in history
    requires ByLastAccess(r, history)
    ensures forall y :: y in Without(r, x) + [x] ==> y in history + [x]
    ensures ByLastAccess(Without(r, x) + [x], history + [x])
  {
    var h := history + [x];
    var w := Without(r, x);
    WithoutByLastAccess(r, history, x);
    forall y | y in history && y != x
      ensures y in h && LastIndex(h, y) == LastIndex(history, y)
    {
      LastIndexExtended(history, x, y);
    }
    var s := w + [x];
    forall i, j | 0 <= i < j < |s|
      ensures LastIndex(h, s[i]) < LastIndex(h, s[j])
    {
      assert s[i] == w[i] && s[i] in w;
      if j < |w| {
        assert s[j] == w[j] && s[j] in w;
      } else {
        assert LastIndex(h, s[j]) == |history|;
      }
    }
  }

  /** Appending an access to x leaves the last access of every other block where it was. */
  lemma LastIndexExtended(history: seq<int>, x: int, y: int)
    requires y in history && y != x
    ensures y in history + [x] && LastIndex(history + [x], y) == LastIndex(history, y)
  {
    var h := history + [x];
    assert h[..|history|] == history;
  }

  /** Taking x out keeps the rest ordered by last access. */
  lemma {:induction false} WithoutByLastAccess(r: seq<int>, history: seq<int>, x: int)
    requires forall y :: y in r ==> y in history
    requires ByLastAccess(r, history)
    ensures ByLastAccess(Without(r, x), history)
    decreases |r|
  {
    if r != [] {
      var t := r[1..];
      TailByLastAccess(r, history);
      WithoutByLastAccess(t, history, x);
      if r[0] != x {
        assert Without(r, x) == [r[0]] + Without(t, x);
        HeadByLastAccess(r, history, Without(t, x));
      }
    }
  }

  /** The tail of an ordered sequence is ordered. */
  lemma TailByLastAccess(r: seq<int>, history: seq<int>)
    requires r != [] && forall y :: y in r ==> y in history
    requires ByLastAccess(r, history)
    ensures forall y :: y in r[1..] ==> y in history
    ensures ByLastAccess(r[1..], history)
  {
    var t := r[1..];
    assert forall y :: y in t ==> y in r;
    forall i, j | 0 <= i < j < |t| ensures LastIndex(history, t[i]) < LastIndex(history, t[j]) {
      assert t[i] == r[i + 1] && t[j] == r[j + 1];
    }
  }

  /** The head of an ordered sequence, put before an ordered selection of its tail, stays ordered. */
  lemma HeadByLastAccess(r: seq<int>, history: seq<int>, w: seq<int>)
    requires r != [] && forall y :: y in r ==> y in history
    requires ByLastAccess(r, history)
    requires forall y :: y in w ==> y in r[1..]
    requires forall y :: y in w ==> y in history
    requires ByLastAccess(w, history)
    ensures forall y :: y in [r[0]] + w ==> y in history
    ensures ByLastAccess([r[0]] + w, history)
  {
    var s := [r[0]] + w;
    forall y | y in w ensures LastIndex(history, r[0]) < LastIndex(history, y) {
      var m :| 0 <= m < |r| - 1 && r[1..][m] == y;
      assert r[m + 1] == y;
    }
    forall i, j | 0 <= i < j < |s| ensures LastIndex(history, s[i]) < LastIndex(history, s[j]) {
      assert s[j] == w[j - 1] && s[j] in w;
      if i > 0 {
        assert s[i] == w[i - 1];
      }
    }
  }

  lemma {:induction false} WithoutKeepsDistinct(s: seq<int>, x: int)
    requires Distinct(s)
    ensures Distinct(Without(s, x))
    decreases |s|
  {
    if s != [] {
      assert Distinct(s[1..]) by {
        forall i, j | 0 <= i < j < |s| - 1 ensures s[1..][i] != s[1..][j] {
          assert s[1..][i] == s[i + 1] && s[1..][j] == s[j + 1];
        }
      }
      WithoutKeepsDistinct(s[1..], x);
      assert s[0] !in s[1..] by {
        forall i | 0 <= i < |s| - 1 ensures s[1..][i] != s[0] {
          assert s[1..][i] == s[i + 1];
        }
      }
      if s[0] != x {
        AppendFreshFront(s[0], Without(s[1..], x));
      }
    }
  }

  lemma AppendFresh(s: seq<int>, x: int)
    requires Distinct(s) && x !in s
    ensures Distinct(s + [x])
  {
    forall i, j | 0 <= i < j < |s| + 1 ensures (s + [x])[i] != (s + [x])[j] {
      if j == |s| {
        assert (s + [x])[i] == s[i];
      } else {
        assert (s + [x])[i] == s[i] && (s + [x])[j] == s[j];
      }
    }
  }

  lemma AppendFreshFront(x: int, s: seq<int>)
    requires Distinct(s) && x !in s
    ensures Distinct([x] + s)
  {
    forall i, j | 0 <= i < j < |s| + 1 ensures ([x] + s)[i] != ([x] + s)[j] {
      assert ([x] + s)[j] == s[j - 1];
      if i > 0 {
        assert ([x] + s)[i] == s[i - 1];
      }
    }
  }

  /** The last k elements of s. */
  function Last(s: seq<int>, k: nat): seq<int>
    requires k <= |s|
  {
    s[|s| - k..]
  }

  function Blank(n: nat): (r: seq<int>)
    ensures |r| == n && forall i :: 0 <= i < n ==> r[i] == NoBlock
  {
    seq(n, _ => NoBlock)
  }

  function Min(a: nat, b: nat): nat
  {
    if a < b then a else b
  }

  /**
   * The block numbers of n slots, least recent first, for an access order: the n
   * most recently accessed blocks, preceded by empty slots while fewer than n
   * blocks have been accessed.
   */
  function Layout(order: seq<int>, n: nat): (r: seq<int>)
    ensures |r| == n
  {
    var k := Min(n, |order|);
    Blank(n - k) + Last(order, k)
  }

  lemma {:induction false} WithoutConcat(a: seq<int>, b: seq<int>, x: int)
    ensures Without(a + b, x) == Without(a, x) + Without(b, x)
    decreases |a|
  {
    if a != [] {
      assert (a + b)[0] == a[0] && (a + b)[1..] == a[1..] + b;
      WithoutConcat(a[1..], b, x);
      var p := if a[0] == x then [] else [a[0]];
      assert Without(a + b, x) == p + Without(a[1..] + b, x);
      assert p + (Without(a[1..], x) + Without(b, x)) == (p + Without(a[1..], x)) + Without(b, x);
    } else {
      assert a + b == b;
    }
  }

  lemma {:induction false} WithoutAbsent(s: seq<int>, x: int)
    requires x !in s
    ensures Without(s, x) == s
    decreases |s|
  {
    if s != [] {
      assert s[1..] == s[1..];
      assert x !in s[1..] by {
        forall y | y in s[1..] ensures y in s {
        }
      }
      WithoutAbsent(s[1..], x);
    }
  }

  lemma {:induction false} WithoutOnce(s: seq<int>, x: int)
    requires Distinct(s) && x in s
    ensures |Without(s, x)| == |s| - 1
    decreases |s|
  {
    if s[0] == x {
      assert x !in s[1..] by {
        forall i | 0 <= i < |s| - 1 ensures s[1..][i] != x {
          assert s[1..][i] == s[i + 1];
        }
      }
      WithoutAbsent(s[1..], x);
    } else {
      assert x in s[1..] by {
        var i :| 0 <= i < |s| && s[i] == x;
        assert s[1..][i - 1] == x;
      }
      assert Distinct(s[1..]) by {
        forall i, j | 0 <= i < j < |s| - 1 ensures s[1..][i] != s[1..][j] {
          assert s[1..][i] == s[i + 1] && s[1..][j] == s[j + 1];
        }
      }
      WithoutOnce(s[1..], x);
    }
  }

  /** Split of a sequence into everything before its last k elements and those elements. */
  lemma SplitLast(s: seq<int>, k: nat)
    requires k <= |s| && Distinct(s)
    ensures s == s[..|s| - k] + Last(s, k)
    ensures Distinct(Last(s, k))
    ensures forall y :: y in Last(s, k) ==> y !in s[..|s| - k]
  {
    var p := |s| - k;
    forall i, j | 0 <= i < j < k ensures Last(s, k)[i] != Last(s, k)[j] {
      assert Last(s, k)[i] == s[p + i] && Last(s, k)[j] == s[p + j];
    }
    forall y | y in Last(s, k) ensures y !in s[..p] {
      var j :| 0 <= j < k && Last(s, k)[j] == y;
      assert s[p + j] == y;
      forall i | 0 <= i < p ensures s[..p][i] != y {
        assert s[..p][i] == s[i];
      }
    }
  }

  /**
   * Accessing a block that is among the n most recent ones: it moves to the most
   * recent end of the layout, everything else keeps its place and order.
   */
  lemma LayoutHit(order: seq<int>, x: int, n: nat)
    requires Distinct(order) && x != NoBlock
    requires x in Last(order, Min(n, |order|))
    ensures Layout(Without(order, x) + [x], n) == Without(Layout(order, n), x) + [x]
  {
    var k := Min(n, |order|);
    var s1, s2 := order[..|order| - k], Last(order, k);
    var w := Without(s2, x);
    assert Without(order, x) == s1 + w && |w| == k - 1 by {
      SplitLast(order, k);
      WithoutConcat(s1, s2, x);
      WithoutAbsent(s1, x);
      WithoutOnce(s2, x);
    }
    assert Without(Layout(order, n), x) == Blank(n - k) + w by {
      WithoutConcat(Blank(n - k), s2, x);
      WithoutAbsent(Blank(n - k), x);
    }
    LastOfAppended(s1, w, x, n);
  }

  lemma LastOfAppended(s1: seq<int>, w: seq<int>, x: int, n: nat)
    requires |w| + 1 == Min(n, |s1| + |w| + 1)
    ensures Layout(s1 + w + [x], n) == Blank(n - |w| - 1) + w + [x]
  {
    var o := s1 + w + [x];
    assert Last(o, |w| + 1) == w + [x];
  }

  /**
   * Accessing a block that is not among the n most recent ones: the least recent
   * slot (an empty one while there is one) drops out at the front and the block
   * joins at the most recent end.
   */
  lemma LayoutMiss(order: seq<int>, x: int, n: nat)
    requires Distinct(order) && x != NoBlock && n > 0
    requires x !in Last(order, Min(n, |order|))
    ensures Layout(Without(order, x) + [x], n) == Layout(order, n)[1..] + [x]
  {
    if |order| < n {
      LayoutMissFilling(order, x, n);
    } else {
      LayoutMissFull(order, x, n);
    }
  }

  lemma LayoutMissFilling(order: seq<int>, x: int, n: nat)
    requires x !in order && |order| < n
    ensures Layout(Without(order, x) + [x], n) == Layout(order, n)[1..] + [x]
  {
    FillingDropsBlank(order, n);
    FillingAppends(order, x, n);
  }

  lemma FillingDropsBlank(order: seq<int>, n: nat)
    requires |order| < n
    ensures Layout(order, n)[1..] == Blank(n - |order| - 1) + order
  {
    var m := n - |order|;
    assert Layout(order, n) == Blank(m) + order by {
      assert Last(order, |order|) == order;
    }
    BlankTail(m);
    assert (Blank(m) + order)[1..] == Blank(m)[1..] + order;
  }

  lemma FillingAppends(order: seq<int>, x: int, n: nat)
    requires x !in order && |order| < n
    ensures Layout(Without(order, x) + [x], n) == Blank(n - |order| - 1) + order + [x]
  {
    WithoutAbsent(order, x);
    assert Last(order + [x], |order| + 1) == order + [x];
  }

  lemma BlankTail(m: nat)
    requires m > 0
    ensures Blank(m)[1..] == Blank(m - 1)
  {
  }

  lemma LayoutMissFull(order: seq<int>, x: int, n: nat)
    requires Distinct(order) && n > 0 && n <= |order|
    requires x !in Last(order, n)
    ensures Layout(Without(order, x) + [x], n) == Layout(order, n)[1..] + [x]
  {
    var s1, s2 := order[..|order| - n], Last(order, n);
    assert Without(order, x) == Without(s1, x) + s2 by {
      SplitLast(order, n);
      WithoutConcat(s1, s2, x);
      WithoutAbsent(s2, x);
    }
    var w, t := Without(s1, x), s2 + [x];
    var o := w + t;
    assert Without(order, x) + [x] == o;
    assert |t| == n + 1 && |o| - n == |w| + 1;
    assert Last(o, n) == t[1..] by {
      forall i | 0 <= i < n ensures Last(o, n)[i] == t[1..][i] {
        assert Last(o, n)[i] == o[|w| + 1 + i];
      }
    }
    assert t[1..] == s2[1..] + [x];
    assert Layout(order, n) == s2;
  }
}
