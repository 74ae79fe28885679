/** Order-preserving sequence operations shared by the Python list and dict models. */
module Seqs {

  predicate Distinct<T(==)>(xs: seq<T>) {
    forall i, j :: 0 <= i < j < |xs| ==> xs[i] != xs[j]
  }

  /** `a` is `b` with some elements deleted and the rest kept in order. */
  predicate IsSubsequence<T(==)>(a: seq<T>, b: seq<T>)
    decreases |b|
  {
    if a == [] then true
    else if b == [] then false
    else (a[|a| - 1] == b[|b| - 1] && IsSubsequence(a[..|a| - 1], b[..|b| - 1]))
         || IsSubsequence(a, b[..|b| - 1])
  }

  /**
    Keep the first occurrence of every element, in the order of first
    occurrence: element `xs[i]` survives exactly when it is not in `xs[..i]`.
    This is `DataFrame.drop_duplicates()` on rows and the order in which a
    Python dict remembers its keys.
   */
  function Dedup<T(==)>(xs: seq<T>): seq<T>
    decreases |xs|
  {
    if xs == [] then []
    else
      var p := xs[..|xs| - 1];
      Dedup(p) + if xs[|xs| - 1] in p then [] else [xs[|xs| - 1]]
  }

  lemma {:induction false} SubsequenceExtend<T>(a: seq<T>, b: seq<T>, x: T)
    requires IsSubsequence(a, b)
    ensures IsSubsequence(a, b + [x])
    ensures IsSubsequence(a + [x], b + [x])
  {
    assert (b + [x])[..|b|] == b;
    assert (a + [x])[..|a|] == a;
  }

  /** Putting an element in front of the larger list, or of both, keeps a subsequence one. */
  lemma {:induction false} SubsequencePrepend<T>(a: seq<T>, b: seq<T>, x: T)
    requires IsSubsequence(a, b)
    ensures IsSubsequence(a, [x] + b)
    ensures IsSubsequence([x] + a, [x] + b)
    decreases |b|
  {
    var xa := [x] + a;
    var xb := [x] + b;
    if a != [] {
      assert xa[..|xa| - 1] == [x] + a[..|a| - 1];
    }
    if b == [] {
      assert xb[..0] == [];
    } else {
      var b' := b[..|b| - 1];
      assert xb[..|xb| - 1] == [x] + b';
      if a == [] {
        SubsequencePrepend(a, b', x);
      } else if a[|a| - 1] == b[|b| - 1] && IsSubsequence(a[..|a| - 1], b') {
        SubsequencePrepend(a[..|a| - 1], b', x);
      } else {
        SubsequencePrepend(a, b', x);
      }
    }
  }

  /** A subsequence of a subsequence is a subsequence. */
  lemma {:induction false} SubsequenceTrans<T>(a: seq<T>, b: seq<T>, c: seq<T>)
    requires IsSubsequence(a, b) && IsSubsequence(b, c)
    ensures IsSubsequence(a, c)
    decreases |c|
  {
    if a != [] && c != [] {
      var c' := c[..|c| - 1];
      if b[|b| - 1] == c[|c| - 1] && IsSubsequence(b[..|b| - 1], c') {
        if a[|a| - 1] == b[|b| - 1] && IsSubsequence(a[..|a| - 1], b[..|b| - 1]) {
          SubsequenceTrans(a[..|a| - 1], b[..|b| - 1], c');
        } else {
          SubsequenceTrans(a, b[..|b| - 1], c');
        }
      } else {
        SubsequenceTrans(a, b, c');
      }
    }
  }

  /** A slice is a subsequence. */
  lemma {:induction false} SliceSubsequence<T>(s: seq<T>, i: nat, j: nat)
    requires i <= j <= |s|
    ensures IsSubsequence(s[i..j], s)
    decreases |s|
  {
    if i < j {
      var init := s[..|s| - 1];
      if j < |s| {
        assert init[i..j] == s[i..j];
        SliceSubsequence(init, i, j);
      } else {
        assert s[i..j][..j - i - 1] == init[i..j - 1];
        SliceSubsequence(init, i, j - 1);
      }
    }
  }

  lemma {:induction false} SubsequenceRefl<T>(a: seq<T>)
    ensures IsSubsequence(a, a)
  {
    if a != [] {
      SubsequenceRefl(a[..|a| - 1]);
    }
  }

  /** Dedup keeps exactly the elements of its input, each once. */
  lemma {:induction false} DedupElements<T>(xs: seq<T>)
    ensures forall x :: x in Dedup(xs) <==> x in xs
    ensures Distinct(Dedup(xs))
  {
    if xs != [] {
      var p := xs[..|xs| - 1];
      var x := xs[|xs| - 1];
      DedupElements(p);
      assert xs == p + [x];
      assert Dedup(xs) == Dedup(p) + if x in p then [] else [x];
    }
  }

  /** Dedup deletes elements and keeps the rest in input order. */
  lemma {:induction false} DedupSubsequence<T>(xs: seq<T>)
    ensures IsSubsequence(Dedup(xs), xs)
  {
    if xs != [] {
      var p := xs[..|xs| - 1];
      var x := xs[|xs| - 1];
      DedupSubsequence(p);
      assert xs == p + [x];
      SubsequenceExtend(Dedup(p), p, x);
      if x in p {
        assert Dedup(xs) == Dedup(p);
      } else {
        assert Dedup(xs) == Dedup(p) + [x];
      }
    }
  }

  /**
    Deduplicating a prefix of the input gives a prefix of the result. With
    DedupElements this fixes which copy survives: the first one.
   */
  lemma {:induction false} DedupPrefix<T>(xs: seq<T>, i: nat)
    requires i <= |xs|
    ensures Dedup(xs[..i]) <= Dedup(xs)
    decreases |xs|
  {
    if i < |xs| {
      var p := xs[..|xs| - 1];
      assert xs[..i] == p[..i];
      DedupPrefix(p, i);
    } else {
      assert xs[..i] == xs;
    }
  }

  /** The three facts above, used together. */
  lemma DedupProperties<T>(xs: seq<T>)
    ensures Distinct(Dedup(xs))
    ensures forall x :: x in Dedup(xs) <==> x in xs
    ensures IsSubsequence(Dedup(xs), xs)
    ensures forall i :: 0 <= i <= |xs| ==> Dedup(xs[..i]) <= Dedup(xs)
  {
    DedupElements(xs);
    DedupSubsequence(xs);
    forall i | 0 <= i <= |xs| ensures Dedup(xs[..i]) <= Dedup(xs) {
      DedupPrefix(xs, i);
    }
  }

  /** A list without repeats is its own Dedup. */
  lemma {:induction false} DedupOfDistinct<T>(xs: seq<T>)
    requires Distinct(xs)
    ensures Dedup(xs) == xs
  {
    if xs != [] {
      var p := xs[..|xs| - 1];
      assert Distinct(p);
      DedupOfDistinct(p);
      assert xs[|xs| - 1] !in p;
      assert xs == p + [xs[|xs| - 1]];
    }
  }

  /** The index of the last occurrence of `x` in `xs`. */
  function LastIndex<T(==)>(xs: seq<T>, x: T): (i: nat)
    requires x in xs
    ensures i < |xs| && xs[i] == x
    ensures forall j :: i < j < |xs| ==> xs[j] != x
    decreases |xs|
  {
    if xs[|xs| - 1] == x then |xs| - 1
    else
      assert x in xs[..|xs| - 1];
      LastIndex(xs[..|xs| - 1], x)
  }

  /** `[x for x in xs if not drop(x)]`: the elements `drop` rejects are deleted. */
  function Reject<T>(xs: seq<T>, drop: T -> bool): (r: seq<T>)
    ensures |r| <= |xs|
    decreases |xs|
  {
    if xs == [] then []
    else Reject(xs[..|xs| - 1], drop) + if drop(xs[|xs| - 1]) then [] else [xs[|xs| - 1]]
  }

  /** Reject keeps exactly the elements that `drop` does not reject. */
  lemma {:induction false} RejectElements<T>(xs: seq<T>, drop: T -> bool)
    ensures forall x :: x in Reject(xs, drop) <==> x in xs && !drop(x)
  {
    if xs != [] {
      var p := xs[..|xs| - 1];
      RejectElements(p, drop);
      assert xs == p + [xs[|xs| - 1]];
    }
  }

  /** Reject keeps the survivors in their original order. */
  lemma {:induction false} RejectSubsequence<T>(xs: seq<T>, drop: T -> bool)
    ensures IsSubsequence(Reject(xs, drop), xs)
  {
    if xs != [] {
      var p := xs[..|xs| - 1];
      var x := xs[|xs| - 1];
      RejectSubsequence(p, drop);
      assert xs == p + [x];
      SubsequenceExtend(Reject(p, drop), p, x);
      if drop(x) {
        assert Reject(xs, drop) == Reject(p, drop);
      } else {
        assert Reject(xs, drop) == Reject(p, drop) + [x];
      }
    }
  }

  /** Reject keeps every surviving element as often as it occurs, and no rejected one. */
  lemma {:induction false} RejectCount<T>(xs: seq<T>, drop: T -> bool)
    ensures forall x :: multiset(Reject(xs, drop))[x] == if drop(x) then 0 else multiset(xs)[x]
  {
    if xs != [] {
      var p := xs[..|xs| - 1];
      var x := xs[|xs| - 1];
      RejectCount(p, drop);
      assert xs == p + [x];
      assert multiset(xs) == multiset(p) + multiset{x};
    }
  }

  /** When nothing is rejected, nothing changes. */
  lemma {:induction false} RejectNothing<T>(xs: seq<T>, drop: T -> bool)
    requires forall i :: 0 <= i < |xs| ==> !drop(xs[i])
    ensures Reject(xs, drop) == xs
  {
    if xs != [] {
      RejectNothing(xs[..|xs| - 1], drop);
    }
  }

  /** RejectNothing, for use inside an expression. */
  lemma RejectNothingWhen<T>(xs: seq<T>, drop: T -> bool)
    ensures (forall i :: 0 <= i < |xs| ==> !drop(xs[i])) ==> Reject(xs, drop) == xs
  {
    if forall i :: 0 <= i < |xs| ==> !drop(xs[i]) {
      RejectNothing(xs, drop);
    }
  }

  /** Two rejections in a row are one rejection by either test. */
  lemma {:induction false} RejectTwice<T>(xs: seq<T>, p: T -> bool, q: T -> bool, either: T -> bool)
    requires forall x :: either(x) == (p(x) || q(x))
    ensures Reject(Reject(xs, p), q) == Reject(xs, either)
  {
    if xs != [] {
      var init := xs[..|xs| - 1];
      var x := xs[|xs| - 1];
      RejectTwice(init, p, q, either);
      var r := Reject(init, p);
      if p(x) {
        assert Reject(xs, p) == r;
      } else {
        assert Reject(xs, p) == r + [x];
        assert (r + [x])[..|r|] == r;
        assert Reject(r + [x], q) == Reject(r, q) + if q(x) then [] else [x];
      }
    }
  }

  /** Repeating an element of a duplicate-free list adds nothing to its deduplication. */
  lemma DedupRepeated<T>(xs: seq<T>, x: T)
    requires Distinct(xs) && x in xs
    ensures Dedup(xs + [x]) == xs
  {
    assert (xs + [x])[..|xs|] == xs;
    DedupOfDistinct(xs);
  }

  /** A prefix one longer is the prefix and the next element. */
  lemma SliceStep<T>(xs: seq<T>, i: nat)
    requires i < |xs|
    ensures xs[..i + 1] == xs[..i] + [xs[i]]
  {
  }

  /** `[f(x) for x in xs]`. */
  function Map<T, U>(xs: seq<T>, f: T -> U): (r: seq<U>)
    ensures |r| == |xs|
    ensures forall i :: 0 <= i < |xs| ==> r[i] == f(xs[i])
  {
    seq(|xs|, i requires 0 <= i < |xs| => f(xs[i]))
  }

  /** Rejecting by a test on `f(x)` commutes with applying `f`. */
  lemma {:induction false} MapReject<T, U>(xs: seq<T>, f: T -> U, p: T -> bool, q: U -> bool)
    requires forall x :: p(x) == q(f(x))
    ensures Map(Reject(xs, p), f) == Reject(Map(xs, f), q)
  {
    if xs != [] {
      var init := xs[..|xs| - 1];
      MapReject(init, f, p, q);
      assert Map(xs, f)[..|xs| - 1] == Map(init, f);
      assert Map(Reject(init, p) + [xs[|xs| - 1]], f) == Map(Reject(init, p), f) + [f(xs[|xs| - 1])];
    }
  }
}
