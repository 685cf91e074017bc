/** `Array.prototype.filter` on sequences. */
module Seqs {

  /** The elements of `s` that satisfy `p`, in their original order. */
  function Filter<T(!new)>(s: seq<T>, p: T -> bool): (r: seq<T>)
    ensures |r| <= |s|
    ensures forall x :: x in r <==> x in s && p(x)
    ensures forall x :: multiset(r)[x] == if p(x) then multiset(s)[x] else 0
  {
    if s == [] then []
    else
      var rest := Filter(s[1..], p);
      assert s == [s[0]] + s[1..];
      assert multiset(s) == multiset{s[0]} + multiset(s[1..]);
      if p(s[0]) then [s[0]] + rest else rest
  }

  /** Filtering a sequence with a known first element. */
  lemma FilterCons<T(!new)>(a: T, s: seq<T>, p: T -> bool)
    ensures Filter([a] + s, p) == (if p(a) then [a] else []) + Filter(s, p)
  {
    assert ([a] + s)[0] == a && ([a] + s)[1..] == s;
  }

  /** When at most one of `a` and `b` passes the filter, swapping them
      does not change what the filter returns. */
  lemma FilterSwap<T(!new)>(a: T, b: T, s: seq<T>, p: T -> bool)
    requires !(p(a) && p(b))
    ensures Filter([a] + ([b] + s), p) == Filter([b] + ([a] + s), p)
  {
    FilterCons(a, [b] + s, p);
    FilterCons(b, s, p);
    FilterCons(b, [a] + s, p);
    FilterCons(a, s, p);
  }

  /** Two filtered lists with passing first elements agree on those elements,
      and the filters of the rests agree too. */
  lemma FilterConsCancel<T(!new)>(x: T, s: seq<T>, y: T, t: seq<T>, p: T -> bool)
    requires p(x) == p(y) && (p(x) || x == y)
    requires Filter([x] + s, p) == Filter([y] + t, p)
    ensures x == y && Filter(s, p) == Filter(t, p)
  {
    FilterCons(x, s, p);
    FilterCons(y, t, p);
    if p(x) {
      assert Filter([x] + s, p)[0] == x && Filter([y] + t, p)[0] == y;
      assert Filter(s, p) == Filter([x] + s, p)[1..];
      assert Filter(t, p) == Filter([y] + t, p)[1..];
    }
  }

  /** Dropping the same first element from two lists with equal multisets
      leaves equal multisets. */
  lemma MultisetTail<T>(a: seq<T>, b: seq<T>)
    requires a != [] && b != [] && a[0] == b[0] && multiset(a) == multiset(b)
    ensures multiset(a[1..]) == multiset(b[1..])
  {
    assert a == [a[0]] + a[1..] && b == [b[0]] + b[1..];
    assert multiset(a) == multiset{a[0]} + multiset(a[1..]);
    assert multiset(b) == multiset{b[0]} + multiset(b[1..]);
    assert multiset(a[1..]) == multiset(a) - multiset{a[0]};
    assert multiset(b[1..]) == multiset(b) - multiset{b[0]};
  }

  /** Filtering splits over concatenation, so survivors keep their relative order. */
  lemma {:induction false} FilterAppend<T(!new)>(a: seq<T>, b: seq<T>, p: T -> bool)
    ensures Filter(a + b, p) == Filter(a, p) + Filter(b, p)
  {
    if a == [] {
      assert a + b == b;
    } else {
      var ab := a + b;
      assert ab[0] == a[0] && ab[1..] == a[1..] + b;
      FilterAppend(a[1..], b, p);
      if p(a[0]) {
        calc {
          Filter(ab, p);
          [a[0]] + Filter(a[1..] + b, p);
          [a[0]] + (Filter(a[1..], p) + Filter(b, p));
          ([a[0]] + Filter(a[1..], p)) + Filter(b, p);
        }
      }
    }
  }

  /** When every element passes, filtering returns the sequence unchanged. */
  lemma {:induction false} FilterAll<T(!new)>(s: seq<T>, p: T -> bool)
    requires forall x :: x in s ==> p(x)
    ensures Filter(s, p) == s
  {
    if s != [] {
      FilterAll(s[1..], p);
    }
  }

  /** Filtering by a predicate the filter already enforced changes nothing more. */
  lemma FilterIdempotent<T(!new)>(s: seq<T>, p: T -> bool)
    ensures Filter(Filter(s, p), p) == Filter(s, p)
  {
    FilterAll(Filter(s, p), p);
  }

  /** The elements of `s` in the opposite order. */
  function Reverse<T>(s: seq<T>): (r: seq<T>)
    ensures |r| == |s|
    ensures forall i :: 0 <= i < |s| ==> r[i] == s[|s| - 1 - i]
  {
    if s == [] then [] else Reverse(s[1..]) + [s[0]]
  }

  lemma {:induction false} ReverseMultiset<T>(s: seq<T>)
    ensures multiset(Reverse(s)) == multiset(s)
  {
    if s != [] {
      ReverseMultiset(s[1..]);
      assert s == [s[0]] + s[1..];
    }
  }

  lemma ReverseReverse<T>(s: seq<T>)
    ensures Reverse(Reverse(s)) == s
  {
  }

  /** Filtering commutes with reversal. */
  lemma {:induction false} FilterReverse<T(!new)>(s: seq<T>, p: T -> bool)
    ensures Filter(Reverse(s), p) == Reverse(Filter(s, p))
  {
    if s != [] {
      var f := Filter(s[1..], p);
      var head: seq<T> := if p(s[0]) then [s[0]] else [];
      assert s == [s[0]] + s[1..];
      assert Filter([s[0]], p) == head by {
        FilterCons(s[0], [], p);
        assert [s[0]] + [] == [s[0]];
      }
      assert Reverse(head + f) == Reverse(f) + head by {
        if p(s[0]) {
          assert ([s[0]] + f)[1..] == f;
        } else {
          assert head + f == f;
        }
      }
      calc {
        Filter(Reverse(s), p);
        Filter(Reverse(s[1..]) + [s[0]], p);
        { FilterAppend(Reverse(s[1..]), [s[0]], p); }
        Filter(Reverse(s[1..]), p) + Filter([s[0]], p);
        { FilterReverse(s[1..], p); }
        Reverse(f) + head;
        Reverse(head + f);
        { FilterCons(s[0], s[1..], p); }
        Reverse(Filter(s, p));
      }
    }
  }

  /** A filter that at most one position of `s` passes keeps at most one element. */
  lemma {:induction false} FilterAtMostOne<T(!new)>(s: seq<T>, p: T -> bool)
    requires forall i, j :: 0 <= i < j < |s| && p(s[i]) ==> !p(s[j])
    ensures |Filter(s, p)| <= 1
  {
    if s != [] {
      FilterAtMostOne(s[1..], p);
      FilterCons(s[0], s[1..], p);
      assert s == [s[0]] + s[1..];
      if p(s[0]) {
        FilterNone(s[1..], p);
      }
    }
  }

  /** When no element passes, the filter returns nothing. */
  lemma FilterNone<T(!new)>(s: seq<T>, p: T -> bool)
    requires forall i :: 0 <= i < |s| ==> !p(s[i])
    ensures Filter(s, p) == []
  {
  }
}
