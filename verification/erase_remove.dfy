/** The erase/remove idiom on a sequence container:
    `v.erase(std::remove(v.begin(), v.end(), x), v.end())`. */
module EraseRemove {

  /** Every element equal to `x` is dropped; the others keep their relative order. */
  function Erase<X(==)>(s: seq<X>, x: X): (r: seq<X>)
    ensures |r| <= |s|
  {
    if s == [] then []
    else
      var init, last := s[..|s| - 1], s[|s| - 1];
      assert s == init + [last];
      Erase(init, x) + (if last == x then [] else [last])
  }

  /** Erasing drops every occurrence of `x` and keeps every other element as often as it occurred. */
  lemma {:induction false} EraseMembers<X>(s: seq<X>, x: X)
    ensures multiset(Erase(s, x)) == multiset(s)[x := 0]
    ensures forall y :: y in Erase(s, x) <==> y in s && y != x
  {
    if s != [] {
      var init, last := s[..|s| - 1], s[|s| - 1];
      assert s == init + [last];
      EraseMembers(init, x);
    }
  }

  /** Erasing distributes over concatenation: the relative order of the kept elements is the original one. */
  lemma {:induction false} EraseConcat<X>(a: seq<X>, b: seq<X>, x: X)
    ensures Erase(a + b, x) == Erase(a, x) + Erase(b, x)
  {
    if b == [] {
      assert a + b == a;
    } else {
      var init, last := b[..|b| - 1], b[|b| - 1];
      assert (a + b)[..|a + b| - 1] == a + init;
      assert (a + b)[|a + b| - 1] == last;
      EraseConcat(a, init, x);
    }
  }

  /** Nothing to remove leaves the container as it was; in particular erasing twice erases nothing more. */
  lemma {:induction false} EraseAbsent<X>(s: seq<X>, x: X)
    requires x !in s
    ensures Erase(s, x) == s
  {
    if s != [] {
      var init := s[..|s| - 1];
      assert s == init + [s[|s| - 1]];
      EraseAbsent(init, x);
    }
  }

  lemma EraseIdempotent<X>(s: seq<X>, x: X)
    ensures Erase(Erase(s, x), x) == Erase(s, x)
  {
    EraseMembers(s, x);
    EraseAbsent(Erase(s, x), x);
  }

  /** The elements whose flag in `keep` is set, in their original order. */
  function Select<X>(s: seq<X>, keep: seq<bool>): (r: seq<X>)
    requires |keep| == |s|
    ensures |r| <= |s|
  {
    if s == [] then []
    else
      var n := |s| - 1;
      assert s == s[..n] + [s[n]];
      Select(s[..n], keep[..n]) + (if keep[n] then [s[n]] else [])
  }

  /** The selection holds no element more often than the original. */
  lemma {:induction false} SelectMembers<X>(s: seq<X>, keep: seq<bool>)
    requires |keep| == |s|
    ensures multiset(Select(s, keep)) <= multiset(s)
  {
    if s != [] {
      var n := |s| - 1;
      assert s == s[..n] + [s[n]];
      SelectMembers(s[..n], keep[..n]);
    }
  }

  /** Selecting from a prefix one element longer. */
  lemma SelectSnoc<X>(s: seq<X>, keep: seq<bool>, i: nat)
    requires |keep| == |s| && i < |s|
    ensures Select(s[..i + 1], keep[..i + 1]) == Select(s[..i], keep[..i]) + if keep[i] then [s[i]] else []
  {
    assert s[..i + 1][..i] == s[..i];
    assert keep[..i + 1][..i] == keep[..i];
  }

  /** Selection distributes over concatenation. */
  lemma {:induction false} SelectConcat<X>(a: seq<X>, ka: seq<bool>, b: seq<X>, kb: seq<bool>)
    requires |ka| == |a| && |kb| == |b|
    ensures Select(a + b, ka + kb) == Select(a, ka) + Select(b, kb)
  {
    if b == [] {
      assert a + b == a && ka + kb == ka;
    } else {
      var n := |b| - 1;
      assert (a + b)[..|a| + n] == a + b[..n];
      assert (ka + kb)[..|a| + n] == ka + kb[..n];
      SelectConcat(a, ka, b[..n], kb[..n]);
    }
  }

  /** How many of the first `n` flags are unset. */
  function Dropped(keep: seq<bool>, n: nat): nat
    requires n <= |keep|
  {
    if n == 0 then 0 else Dropped(keep, n - 1) + (if keep[n - 1] then 0 else 1)
  }

  lemma {:induction false} DroppedPrefix(keep: seq<bool>, m: nat, n: nat)
    requires n <= m <= |keep|
    ensures Dropped(keep[..m], n) == Dropped(keep, n)
  {
    if n > 0 {
      DroppedPrefix(keep, m, n - 1);
    }
  }

  /** Every element is either selected or counted as dropped. */
  lemma {:induction false} SelectDropped<X>(s: seq<X>, keep: seq<bool>)
    requires |keep| == |s|
    ensures |Select(s, keep)| + Dropped(keep, |keep|) == |s|
  {
    if s != [] {
      var n := |s| - 1;
      SelectDropped(s[..n], keep[..n]);
      DroppedPrefix(keep, n, n);
    }
  }

  /** A selection that drops nothing keeps every element. */
  lemma {:induction false} SelectAll<X>(s: seq<X>, keep: seq<bool>)
    requires |keep| == |s| && |Select(s, keep)| == |s|
    ensures forall k :: 0 <= k < |s| ==> keep[k]
  {
    if s != [] {
      var n := |s| - 1;
      SelectAll(s[..n], keep[..n]);
      assert forall k :: 0 <= k < n ==> keep[k] == keep[..n][k];
    }
  }

  /** Overwriting the dropped elements with `hole` and erasing every `hole` is the same selection. */
  lemma {:induction false} EraseMarkedIsSelect<X>(s: seq<X>, keep: seq<bool>, t: seq<X>, hole: X)
    requires |keep| == |s| && |t| == |s|
    requires forall k :: 0 <= k < |s| ==> t[k] == if keep[k] then s[k] else hole
    requires forall k :: 0 <= k < |s| && keep[k] ==> s[k] != hole
    ensures Erase(t, hole) == Select(s, keep)
  {
    if s != [] {
      var n := |s| - 1;
      assert t == t[..n] + [t[n]];
      EraseMarkedIsSelect(s[..n], keep[..n], t[..n], hole);
    }
  }

  /** Every element other than `hole` occurs at most once. */
  ghost predicate Unique<X>(s: seq<X>, hole: X)
  {
    forall y :: y in s && y != hole ==> multiset(s)[y] == 1
  }

  /** Removing elements never creates a duplicate. */
  lemma EraseKeepsUnique<X>(s: seq<X>, x: X, hole: X)
    requires Unique(s, hole)
    ensures Unique(Erase(s, x), hole)
  {
    EraseMembers(s, x);
  }

  /** Selecting elements never creates a duplicate. */
  lemma SelectKeepsUnique<X>(s: seq<X>, keep: seq<bool>, hole: X)
    requires |keep| == |s| && Unique(s, hole)
    ensures Unique(Select(s, keep), hole)
  {
    SelectMembers(s, keep);
    var r := Select(s, keep);
    forall y | y in r && y != hole
      ensures multiset(r)[y] == 1
    {
      assert multiset(r)[y] <= multiset(s)[y];
    }
  }

  /** Appending an element that was absent keeps the elements unique. */
  lemma AppendKeepsUnique<X>(s: seq<X>, y: X, hole: X)
    requires Unique(s, hole) && y !in s
    ensures Unique(s + [y], hole)
  {
    assert multiset(s + [y]) == multiset(s) + multiset{y};
  }

  /** An element other than `hole` of a sequence with unique such elements occurs at no other position. */
  lemma UniqueAt<X>(s: seq<X>, hole: X, i: nat)
    requires Unique(s, hole) && i < |s| && s[i] != hole
    ensures forall k :: 0 <= k < |s| && k != i ==> s[k] != s[i]
  {
    forall k | 0 <= k < |s| && k != i
      ensures s[k] != s[i]
    {
      var lo, hi := if k < i then k else i, if k < i then i else k;
      var front, back := s[..hi], s[hi..];
      assert s == front + back;
      assert front[lo] == s[lo] && back[0] == s[hi];
      assert multiset(s)[s[lo]] == multiset(front)[s[lo]] + multiset(back)[s[lo]];
    }
  }
}
