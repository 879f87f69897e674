/** The non-member comparison operators of deque_of_unique. They compare the
    two containers' sequences only (never the index): `==` element by
    element, and the ordering operators lexicographically, element by element
    and then by length, through the three-way comparison. The element
    ordering is a parameter `cmp`. */
module Comparison {

  datatype Ordering = Lt | Eq | Gt

  /** The ordering seen from the other side. */
  function Flip(o: Ordering): Ordering {
    match o
    case Lt => Gt
    case Eq => Eq
    case Gt => Lt
  }

  /** `cmp` is a strong ordering of the element type: `Eq` means equal, the
      two sides see opposite results, and `Lt` is transitive. */
  ghost predicate IsComparator<T(!new)>(cmp: (T, T) -> Ordering) {
    && (forall x, y :: cmp(x, y) == Eq <==> x == y)
    && (forall x, y :: cmp(y, x) == Flip(cmp(x, y)))
    && (forall x, y, z :: cmp(x, y) == Lt && cmp(y, z) == Lt ==> cmp(x, z) == Lt)
  }

  /** `a` is below `b` at position `k`: the two agree before `k`, and at `k`
      either `a` has ended while `b` goes on, or `a`'s element is below
      `b`'s. This is the textbook definition of lexicographic order. */
  ghost predicate LexLessAt<T(!new)>(a: seq<T>, b: seq<T>, cmp: (T, T) -> Ordering, k: nat) {
    && k <= |a| && k <= |b| && a[..k] == b[..k]
    && ((k == |a| && k < |b|) || (k < |a| && k < |b| && cmp(a[k], b[k]) == Lt))
  }

  /** operator<=> (the three-way comparison of the two sequences). It says
      `Eq` exactly for equal sequences. */
  function ThreeWay<T(!new)>(a: seq<T>, b: seq<T>, cmp: (T, T) -> Ordering): (r: Ordering)
    requires IsComparator(cmp)
    ensures r == Eq <==> a == b
    decreases |a|
  {
    if |a| == 0 then (if |b| == 0 then Eq else Lt)
    else if |b| == 0 then Gt
    else if cmp(a[0], b[0]) == Eq then
      var r := ThreeWay(a[1..], b[1..], cmp);
      assert a == [a[0]] + a[1..] && b == [b[0]] + b[1..];
      r
    else
      assert a[0] != b[0];
      cmp(a[0], b[0])
  }

  /** The three-way comparison says `Lt` exactly when `a` is lexicographically
      below `b`. */
  lemma {:induction false} ThreeWayLess<T(!new)>(a: seq<T>, b: seq<T>, cmp: (T, T) -> Ordering)
    requires IsComparator(cmp)
    ensures ThreeWay(a, b, cmp) == Lt <==> exists k: nat :: LexLessAt(a, b, cmp, k)
    decreases |a|
  {
    if |a| == 0 {
      if |b| > 0 {
        assert LexLessAt(a, b, cmp, 0);
      }
    } else if |b| == 0 {
      assert forall k: nat :: !LexLessAt(a, b, cmp, k);
    } else if cmp(a[0], b[0]) == Eq {
      var a', b' := a[1..], b[1..];
      ThreeWayLess(a', b', cmp);
      if ThreeWay(a', b', cmp) == Lt {
        var k: nat :| LexLessAt(a', b', cmp, k);
        assert a[..k + 1] == [a[0]] + a'[..k] && b[..k + 1] == [b[0]] + b'[..k];
        assert LexLessAt(a, b, cmp, k + 1);
      }
      if exists k: nat :: LexLessAt(a, b, cmp, k) {
        var k: nat :| LexLessAt(a, b, cmp, k);
        assert k != 0;
        assert a'[..k - 1] == a[..k][1..] && b'[..k - 1] == b[..k][1..];
        assert LexLessAt(a', b', cmp, k - 1);
      }
    } else {
      if cmp(a[0], b[0]) == Lt {
        assert LexLessAt(a, b, cmp, 0);
      } else {
        forall k: nat | 0 < k <= |a| && k <= |b| ensures a[..k] != b[..k] {
          assert a[..k][0] == a[0] && b[..k][0] == b[0];
        }
      }
    }
  }

  /** Comparing the other way round gives the flipped result. */
  lemma {:induction false} ThreeWayFlip<T(!new)>(a: seq<T>, b: seq<T>, cmp: (T, T) -> Ordering)
    requires IsComparator(cmp)
    ensures ThreeWay(b, a, cmp) == Flip(ThreeWay(a, b, cmp))
    decreases |a|
  {
    if |a| > 0 && |b| > 0 && cmp(a[0], b[0]) == Eq {
      ThreeWayFlip(a[1..], b[1..], cmp);
    }
  }

  /** `Lt` of the three-way comparison is transitive. */
  lemma {:induction false} ThreeWayTransitive<T(!new)>(a: seq<T>, b: seq<T>, c: seq<T>, cmp: (T, T) -> Ordering)
    requires IsComparator(cmp)
    requires ThreeWay(a, b, cmp) == Lt && ThreeWay(b, c, cmp) == Lt
    ensures ThreeWay(a, c, cmp) == Lt
    decreases |a|
  {
    if |a| > 0 {
      assert |b| > 0 && |c| > 0;
      if cmp(a[0], b[0]) == Eq && cmp(b[0], c[0]) == Eq {
        ThreeWayTransitive(a[1..], b[1..], c[1..], cmp);
      }
    }
  }

  /** operator== : the sequences have the same length and the same element
      at every position. */
  function Equal<T(==)>(a: seq<T>, b: seq<T>): (r: bool)
    ensures r <==> |a| == |b| && forall i :: 0 <= i < |a| ==> a[i] == b[i]
  {
    a == b
  }

  /** operator!= : unequal sequences are ordered one way or the other, so
      equal elements in a different order compare unequal. */
  function NotEqual<T(==,!new)>(a: seq<T>, b: seq<T>, cmp: (T, T) -> Ordering): (r: bool)
    requires IsComparator(cmp)
    ensures r <==> Less(a, b, cmp) || Less(b, a, cmp)
  {
    ThreeWayFlip(a, b, cmp);
    !Equal(a, b)
  }

  /** operator< : the three-way comparison says less, which is exactly
      lexicographic order. */
  function Less<T(!new)>(a: seq<T>, b: seq<T>, cmp: (T, T) -> Ordering): (r: bool)
    requires IsComparator(cmp)
    ensures r <==> exists k: nat :: LexLessAt(a, b, cmp, k)
  {
    ThreeWayLess(a, b, cmp);
    ThreeWay(a, b, cmp) == Lt
  }

  /** operator<= : less or equivalent, that is, `b` is not below `a`. */
  function LessEq<T(!new)>(a: seq<T>, b: seq<T>, cmp: (T, T) -> Ordering): (r: bool)
    requires IsComparator(cmp)
    ensures r <==> !Less(b, a, cmp)
    ensures r <==> Less(a, b, cmp) || a == b
  {
    ThreeWayFlip(a, b, cmp);
    var o := ThreeWay(a, b, cmp);
    o == Lt || o == Eq
  }

  /** operator> : `b` is below `a`. */
  function Greater<T(!new)>(a: seq<T>, b: seq<T>, cmp: (T, T) -> Ordering): (r: bool)
    requires IsComparator(cmp)
    ensures r <==> Less(b, a, cmp)
  {
    ThreeWayFlip(a, b, cmp);
    ThreeWay(a, b, cmp) == Gt
  }

  /** operator>= : greater or equivalent, that is, `a` is not below `b`. */
  function GreaterEq<T(!new)>(a: seq<T>, b: seq<T>, cmp: (T, T) -> Ordering): (r: bool)
    requires IsComparator(cmp)
    ensures r <==> !Less(a, b, cmp)
    ensures r <==> Less(b, a, cmp) || a == b
  {
    ThreeWayFlip(a, b, cmp);
    var o := ThreeWay(a, b, cmp);
    o == Gt || o == Eq
  }

  /** operator< is a strict order: irreflexive, asymmetric and transitive. */
  lemma LessIsStrictOrder<T(!new)>(a: seq<T>, b: seq<T>, c: seq<T>, cmp: (T, T) -> Ordering)
    requires IsComparator(cmp)
    ensures !Less(a, a, cmp)
    ensures Less(a, b, cmp) ==> !Less(b, a, cmp)
    ensures Less(a, b, cmp) && Less(b, c, cmp) ==> Less(a, c, cmp)
  {
    ThreeWayFlip(a, b, cmp);
    if Less(a, b, cmp) && Less(b, c, cmp) {
      ThreeWayTransitive(a, b, c, cmp);
    }
  }
}
