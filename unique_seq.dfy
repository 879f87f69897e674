/** Duplicate-free sequences: the abstract state of a deque_of_unique is one
    such sequence (its deque_) together with the set of its values (its set_).
    This module defines the two specification functions of the bulk
    operations, AppendNew (what the push_back loop builds) and Accepted (which
    values a bulk insert takes), and proves how they relate. */
module UniqueSeq {

  /** No value occurs at two positions of `s`. */
  ghost predicate NoDuplicates<T>(s: seq<T>) {
    forall i, j :: 0 <= i < j < |s| ==> s[i] != s[j]
  }

  /** The set of values that occur in `s`. */
  ghost function Elements<T>(s: seq<T>): set<T> {
    set x | x in s
  }

  /** The values of a concatenation are those of its parts. */
  lemma ElementsConcat<T>(a: seq<T>, b: seq<T>)
    ensures Elements(a + b) == Elements(a) + Elements(b)
  {
    forall x | x in Elements(a + b) ensures x in Elements(a) + Elements(b) {
      var i :| 0 <= i < |a + b| && (a + b)[i] == x;
      if i >= |a| { assert b[i - |a|] == x; }
    }
  }

  /** Appending one value adds exactly that value. */
  lemma ElementsSnoc<T>(s: seq<T>, x: T)
    ensures Elements(s + [x]) == Elements(s) + {x}
  {
    ElementsConcat(s, [x]);
    assert Elements([x]) == {x} by {
      assert [x][0] == x;
    }
  }

  /** Two duplicate-free sequences with disjoint values concatenate to a
      duplicate-free sequence, and only then. */
  lemma NoDuplicatesConcat<T>(a: seq<T>, b: seq<T>)
    ensures NoDuplicates(a + b) <==>
            NoDuplicates(a) && NoDuplicates(b) && Elements(a) !! Elements(b)
  {
    var c := a + b;
    if NoDuplicates(c) {
      forall i, j | 0 <= i < j < |a| ensures a[i] != a[j] {
        assert c[i] == a[i] && c[j] == a[j];
      }
      forall i, j | 0 <= i < j < |b| ensures b[i] != b[j] {
        assert c[|a| + i] == b[i] && c[|a| + j] == b[j];
      }
      forall i, j | 0 <= i < |a| && 0 <= j < |b| ensures a[i] != b[j] {
        assert c[i] == a[i] && c[|a| + j] == b[j];
      }
    }
    if NoDuplicates(a) && NoDuplicates(b) && Elements(a) !! Elements(b) {
      forall i, j | 0 <= i < j < |c| ensures c[i] != c[j] {
        if j < |a| {
          assert c[i] == a[i] && c[j] == a[j];
        } else if i >= |a| {
          assert c[i] == b[i - |a|] && c[j] == b[j - |a|];
        } else {
          assert c[i] == a[i] && c[j] == b[j - |a|];
          assert c[i] in Elements(a) && c[j] in Elements(b);
        }
      }
    }
  }

  /** Appending an absent value keeps a sequence duplicate-free. */
  lemma NoDuplicatesSnoc<T>(s: seq<T>, x: T)
    requires NoDuplicates(s) && x !in s
    ensures NoDuplicates(s + [x])
  {
    var c := s + [x];
    forall i, j | 0 <= i < j < |c| ensures c[i] != c[j] {
      assert c[i] == s[i];
      if j < |s| {
        assert c[j] == s[j];
      }
    }
  }

  /** The values of a duplicate-free sequence are as many as its positions:
      this is why size() may read either store. */
  lemma {:induction false} DistinctCardinality<T>(s: seq<T>)
    requires NoDuplicates(s)
    ensures |Elements(s)| == |s|
  {
    if |s| > 0 {
      assert s == [s[0]] + s[1..];
      NoDuplicatesConcat([s[0]], s[1..]);
      DistinctCardinality(s[1..]);
      assert Elements(s) == {s[0]} + Elements(s[1..]);
    }
  }

  /** Inserting the duplicate-free block `f`, whose values are new, anywhere
      into a duplicate-free `d` keeps it duplicate-free and adds exactly the
      values of `f`. */
  lemma SpliceDistinct<T>(d: seq<T>, pos: nat, f: seq<T>)
    requires pos <= |d| && NoDuplicates(d) && NoDuplicates(f)
    requires Elements(f) !! Elements(d)
    ensures NoDuplicates(d[..pos] + f + d[pos..])
    ensures Elements(d[..pos] + f + d[pos..]) == Elements(d) + Elements(f)
  {
    assert d == d[..pos] + d[pos..];
    ElementsConcat(d[..pos], d[pos..]);
    ElementsConcat(d[..pos], f);
    ElementsConcat(d[..pos] + f, d[pos..]);
    NoDuplicatesConcat(d[..pos], d[pos..]);
    NoDuplicatesConcat(d[..pos], f);
    NoDuplicatesConcat(d[..pos] + f, d[pos..]);
  }

  /** Cutting the slice [lo, hi) out of a duplicate-free `d` keeps it
      duplicate-free and removes exactly the values of the slice. */
  lemma RemoveSlice<T>(d: seq<T>, lo: nat, hi: nat)
    requires lo <= hi <= |d| && NoDuplicates(d)
    ensures NoDuplicates(d[..lo] + d[hi..])
    ensures Elements(d[..lo] + d[hi..]) == Elements(d) - Elements(d[lo..hi])
  {
    assert d == d[..lo] + d[lo..hi] + d[hi..];
    ElementsConcat(d[..lo] + d[lo..hi], d[hi..]);
    ElementsConcat(d[..lo], d[lo..hi]);
    ElementsConcat(d[..lo], d[hi..]);
    NoDuplicatesConcat(d[..lo] + d[lo..hi], d[hi..]);
    NoDuplicatesConcat(d[..lo], d[lo..hi]);
    NoDuplicatesConcat(d[..lo], d[hi..]);
  }

  /** What offering the values of `xs`, front to back, to a container that
      holds `acc` leaves in it: a value is appended only when it is not
      already there. This is the effect of the _push_back loops. */
  function AppendNew<T(==)>(acc: seq<T>, xs: seq<T>): (r: seq<T>)
    ensures |acc| <= |r| && r[..|acc|] == acc
    ensures Elements(r) == Elements(acc) + Elements(xs)
    decreases |xs|
  {
    if |xs| == 0 then acc
    else
      var p := AppendNew(acc, xs[..|xs| - 1]);
      var x := xs[|xs| - 1];
      assert xs == xs[..|xs| - 1] + [x];
      ElementsSnoc(xs[..|xs| - 1], x);
      ElementsSnoc(p, x);
      assert (p + [x])[..|acc|] == p[..|acc|];
      if x in p then p else p + [x]
  }

  /** A value is appended only when it is absent, so a duplicate-free
      sequence stays duplicate-free. */
  lemma {:induction false} AppendNewDistinct<T>(acc: seq<T>, xs: seq<T>)
    requires NoDuplicates(acc)
    ensures NoDuplicates(AppendNew(acc, xs))
    decreases |xs|
  {
    if |xs| > 0 {
      var init, x := xs[..|xs| - 1], xs[|xs| - 1];
      assert xs == init + [x];
      AppendNewDistinct(acc, init);
      AppendNewSnoc(acc, init, x);
      var p := AppendNew(acc, init);
      if x !in p {
        NoDuplicatesSnoc(p, x);
      }
    }
  }

  /** The contents built from the input `xs` by the range, initializer-list
      and copy constructors: duplicate-free, with exactly the values of `xs`. */
  function Dedup<T(==)>(xs: seq<T>): (r: seq<T>)
    ensures NoDuplicates(r)
    ensures Elements(r) == Elements(xs)
  {
    AppendNewDistinct([], xs);
    AppendNew([], xs)
  }

  /** One more offered value: AppendNew appends it exactly when it is not
      already present. */
  lemma AppendNewSnoc<T>(acc: seq<T>, xs: seq<T>, x: T)
    ensures AppendNew(acc, xs + [x]) ==
            (if x in AppendNew(acc, xs) then AppendNew(acc, xs) else AppendNew(acc, xs) + [x])
  {
    assert (xs + [x])[..|xs|] == xs;
  }

  /** The values of `xs` that a container whose membership index is `seen`
      accepts when they are offered front to back: those not in `seen` and
      not occurring earlier in `xs`, in the order of `xs`. */
  ghost function Accepted<T>(seen: set<T>, xs: seq<T>): (r: seq<T>)
    ensures Elements(r) == Elements(xs) - seen
    decreases |xs|
  {
    if |xs| == 0 then []
    else
      var init, x := xs[..|xs| - 1], xs[|xs| - 1];
      assert xs == init + [x];
      ElementsSnoc(init, x);
      var a := Accepted(seen, init);
      if x in seen || x in init then
        a
      else
        ElementsSnoc(a, x);
        a + [x]
  }

  /** A value is accepted only once, so the accepted values are duplicate-free. */
  lemma {:induction false} AcceptedDistinct<T>(seen: set<T>, xs: seq<T>)
    ensures NoDuplicates(Accepted(seen, xs))
    decreases |xs|
  {
    if |xs| > 0 {
      var init, x := xs[..|xs| - 1], xs[|xs| - 1];
      assert xs == init + [x];
      AcceptedDistinct(seen, init);
      var a := Accepted(seen, init);
      if !(x in seen || x in init) {
        assert x !in Elements(a);
        NoDuplicatesSnoc(a, x);
      }
    }
  }

  /** One more offered value: Accepted grows by that value exactly when it is
      neither seen nor offered before. */
  lemma AcceptedStep<T>(seen: set<T>, xs: seq<T>, i: nat)
    requires i < |xs|
    ensures xs[i] in seen || xs[i] in xs[..i] ==> Accepted(seen, xs[..i + 1]) == Accepted(seen, xs[..i])
    ensures xs[i] !in seen && xs[i] !in xs[..i] ==> Accepted(seen, xs[..i + 1]) == Accepted(seen, xs[..i]) + [xs[i]]
  {
    assert xs[..i + 1][..i] == xs[..i];
  }

  /** Inserting `x` right after the block `a` of `p + a + s` extends the block. */
  lemma SpliceGrow<T>(p: seq<T>, a: seq<T>, s: seq<T>, x: T)
    ensures (p + a + s)[..|p| + |a|] + [x] + (p + a + s)[|p| + |a|..] == p + (a + [x]) + s
  {
    assert (p + a + s)[..|p| + |a|] == p + a;
    assert (p + a + s)[|p| + |a|..] == s;
  }

  /** One step of the range insert loop, which offers `xs[i]` to a
      sequence holding `d0` with the values accepted so far spliced in at
      `pos`, and an index holding `m0` and the values offered so far. The
      index grows by `xs[i]`; when the value is new it is accepted and goes
      right after the block of accepted values. */
  lemma InsertRangeStep<T>(d0: seq<T>, pos: nat, m0: set<T>, xs: seq<T>, i: nat)
    requires pos <= |d0| && i < |xs|
    ensures xs[i] in m0 + Elements(xs[..i]) ==>
              && m0 + Elements(xs[..i + 1]) == m0 + Elements(xs[..i])
              && Accepted(m0, xs[..i + 1]) == Accepted(m0, xs[..i])
    ensures xs[i] !in m0 + Elements(xs[..i]) ==>
              && m0 + Elements(xs[..i + 1]) == m0 + Elements(xs[..i]) + {xs[i]}
              && Accepted(m0, xs[..i + 1]) == Accepted(m0, xs[..i]) + [xs[i]]
              && (d0[..pos] + Accepted(m0, xs[..i]) + d0[pos..])[..pos + |Accepted(m0, xs[..i])|] + [xs[i]]
                 + (d0[..pos] + Accepted(m0, xs[..i]) + d0[pos..])[pos + |Accepted(m0, xs[..i])|..]
                 == d0[..pos] + Accepted(m0, xs[..i + 1]) + d0[pos..]
  {
    var x := xs[i];
    AcceptedStep(m0, xs, i);
    assert xs[..i + 1] == xs[..i] + [x];
    ElementsSnoc(xs[..i], x);
    assert x in Elements(xs[..i]) <==> x in xs[..i];
    SpliceGrow(d0[..pos], Accepted(m0, xs[..i]), d0[pos..], x);
  }

  /** One step of a _push_back loop, which offers `xs[i]` to a sequence
      holding `AppendNew(d0, xs[..i])` and an index holding `m0` and the
      values offered so far. The value is appended exactly when it is new,
      the index grows by it, and some value was new so far exactly when one
      was new before or this one is. */
  lemma PushBackStep<T>(d0: seq<T>, m0: set<T>, xs: seq<T>, i: nat)
    requires i < |xs| && m0 == Elements(d0)
    ensures xs[i] in m0 + Elements(xs[..i]) ==> AppendNew(d0, xs[..i + 1]) == AppendNew(d0, xs[..i])
    ensures xs[i] !in m0 + Elements(xs[..i]) ==> AppendNew(d0, xs[..i + 1]) == AppendNew(d0, xs[..i]) + [xs[i]]
    ensures m0 + Elements(xs[..i + 1]) == m0 + Elements(xs[..i]) + {xs[i]}
  {
    assert xs[..i + 1][..i] == xs[..i];
    assert xs[..i + 1] == xs[..i] + [xs[i]];
    ElementsSnoc(xs[..i], xs[i]);
    assert xs[i] in AppendNew(d0, xs[..i]) <==> xs[i] in Elements(AppendNew(d0, xs[..i]));
  }

  /** The push_back loop appends exactly the accepted values: later
      duplicates are dropped and first occurrences keep their order. */
  lemma {:induction false} AppendNewIsAccepted<T>(acc: seq<T>, xs: seq<T>)
    ensures AppendNew(acc, xs) == acc + Accepted(Elements(acc), xs)
    decreases |xs|
  {
    if |xs| > 0 {
      var init, x := xs[..|xs| - 1], xs[|xs| - 1];
      AppendNewIsAccepted(acc, init);
      var p := AppendNew(acc, init);
      assert x in p <==> x in Elements(p);
      assert x in init <==> x in Elements(init);
    }
  }

  /** Values that are already distinct and new are all accepted. */
  lemma {:induction false} AcceptedOfDistinct<T>(seen: set<T>, xs: seq<T>)
    requires NoDuplicates(xs) && Elements(xs) !! seen
    ensures Accepted(seen, xs) == xs
    decreases |xs|
  {
    if |xs| > 0 {
      var init, x := xs[..|xs| - 1], xs[|xs| - 1];
      assert xs == init + [x];
      NoDuplicatesConcat(init, [x]);
      AcceptedOfDistinct(seen, init);
    }
  }

  /** Nothing is accepted exactly when every value offered is already seen. */
  lemma AcceptedIsEmpty<T>(seen: set<T>, xs: seq<T>)
    ensures Accepted(seen, xs) == [] <==> Elements(xs) <= seen
  {
    var r := Accepted(seen, xs);
    if r != [] {
      assert r[0] in Elements(r);
    }
  }

  /** Offering values changes nothing exactly when all of them are already
      present; otherwise the sequence grows. */
  lemma AppendNewUnchanged<T>(acc: seq<T>, xs: seq<T>)
    ensures AppendNew(acc, xs) == acc <==> Elements(xs) <= Elements(acc)
    ensures |AppendNew(acc, xs)| > |acc| <==> !(Elements(xs) <= Elements(acc))
  {
    AppendNewIsAccepted(acc, xs);
    AcceptedIsEmpty(Elements(acc), xs);
    if Accepted(Elements(acc), xs) == [] {
      assert acc + [] == acc;
    }
  }

  /** Appending values that keep the whole sequence duplicate-free appends
      all of them: a copy of a duplicate-free deque is equal to it. */
  lemma AppendNewOfDistinct<T>(acc: seq<T>, xs: seq<T>)
    requires NoDuplicates(acc + xs)
    ensures AppendNew(acc, xs) == acc + xs
  {
    NoDuplicatesConcat(acc, xs);
    AppendNewIsAccepted(acc, xs);
    AcceptedOfDistinct(Elements(acc), xs);
  }

  /** Dedup changes its input exactly when the input has a duplicate. */
  lemma DedupFixpoint<T>(xs: seq<T>)
    ensures Dedup(xs) == xs <==> NoDuplicates(xs)
  {
    if NoDuplicates(xs) {
      assert [] + xs == xs;
      AppendNewOfDistinct([], xs);
    }
  }

  /** Building a container from the contents of one built from `xs` gives
      the same contents. */
  lemma DedupIdempotent<T>(xs: seq<T>)
    ensures Dedup(Dedup(xs)) == Dedup(xs)
  {
    DedupFixpoint(Dedup(xs));
  }

  /** Dedup keeps first occurrences in order: it is the accepted values of
      `xs` for an empty index. */
  lemma DedupIsFirstOccurrences<T>(xs: seq<T>)
    ensures Dedup(xs) == Accepted({}, xs)
  {
    AppendNewIsAccepted([], xs);
    assert Elements<T>([]) == {};
  }

  /** The number of positions of `s` whose value satisfies `pred`. */
  function CountWhere<T>(s: seq<T>, pred: T -> bool): (n: nat)
    ensures n <= |s|
    decreases |s|
  {
    if |s| == 0 then 0
    else CountWhere(s[..|s| - 1], pred) + (if pred(s[|s| - 1]) then 1 else 0)
  }

  /** The values of `s` that fail `pred`, in the order of `s`. */
  function Remaining<T>(s: seq<T>, pred: T -> bool): (r: seq<T>)
    ensures |r| + CountWhere(s, pred) == |s|
    ensures Elements(r) == set x | x in s && !pred(x)
    decreases |s|
  {
    if |s| == 0 then []
    else
      var init, x := s[..|s| - 1], s[|s| - 1];
      assert s == init + [x];
      ElementsSnoc(init, x);
      var p := Remaining(init, pred);
      if pred(x) then
        assert (set y | y in s && !pred(y)) == (set y | y in init && !pred(y));
        p
      else
        ElementsSnoc(p, x);
        assert (set y | y in s && !pred(y)) == (set y | y in init && !pred(y)) + {x};
        p + [x]
  }

  /** Dropping values keeps a duplicate-free sequence duplicate-free. */
  lemma {:induction false} RemainingDistinct<T>(s: seq<T>, pred: T -> bool)
    requires NoDuplicates(s)
    ensures NoDuplicates(Remaining(s, pred))
    decreases |s|
  {
    if |s| > 0 {
      var init, x := s[..|s| - 1], s[|s| - 1];
      assert s == init + [x];
      NoDuplicatesConcat(init, [x]);
      RemainingDistinct(init, pred);
      if !pred(x) {
        assert x !in Elements(init);
        assert x !in Elements(Remaining(init, pred));
        NoDuplicatesSnoc(Remaining(init, pred), x);
      }
    }
  }

  /** One more position: Remaining keeps its value exactly when it fails
      `pred`, and CountWhere counts it exactly when it satisfies `pred`. */
  lemma RemainingSnoc<T>(s: seq<T>, pred: T -> bool, x: T)
    ensures pred(x) ==> Remaining(s + [x], pred) == Remaining(s, pred)
    ensures !pred(x) ==> Remaining(s + [x], pred) == Remaining(s, pred) + [x]
    ensures CountWhere(s + [x], pred) == CountWhere(s, pred) + (if pred(x) then 1 else 0)
  {
    assert (s + [x])[..|s|] == s;
  }

  /** One step of the erase_if loop, which has kept `Remaining(s[..j], pred)`
      in front of position `i` of `d`, with the unvisited rest `s[j..]` from
      `i` on. A value that satisfies `pred` is counted and dropped, which
      leads the rest up to `i`; any other value is kept and `i` moves on. */
  lemma EraseIfStep<T>(s: seq<T>, pred: T -> bool, j: nat, d: seq<T>, i: nat)
    requires j < |s| && i < |d| && d[i..] == s[j..]
    ensures d[i] == s[j]
    ensures pred(s[j]) ==>
              && Remaining(s[..j + 1], pred) == Remaining(s[..j], pred)
              && CountWhere(s[..j + 1], pred) == CountWhere(s[..j], pred) + 1
              && (d[..i] + d[i + 1..])[..i] == d[..i]
              && (d[..i] + d[i + 1..])[i..] == s[j + 1..]
    ensures !pred(s[j]) ==>
              && Remaining(s[..j + 1], pred) == Remaining(s[..j], pred) + [s[j]]
              && CountWhere(s[..j + 1], pred) == CountWhere(s[..j], pred)
              && d[..i + 1] == d[..i] + [s[j]]
              && d[i + 1..] == s[j + 1..]
  {
    assert d[i] == d[i..][0] == s[j..][0];
    assert s[..j + 1][..j] == s[..j];
    assert d[i + 1..] == d[i..][1..];
    assert s[j + 1..] == s[j..][1..];
  }
}
