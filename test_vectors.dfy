/** Concrete cases from tests/test_dequeofunique.cpp, stated on the
    specification functions of the model. */
module TestVectors {
  import opened UniqueSeq
  import opened Comparison

  /** Constructing from {1, 2, 3, 3} keeps {1, 2, 3}. Stated for any three
      distinct values in the roles of 1, 2 and 3. */
  lemma DedupVector<T>(a: T, b: T, c: T)
    requires a != b && a != c && b != c
    ensures Dedup([a, b, c, c]) == [a, b, c]
  {
    AppendNewSnoc([], [], a);
    assert [] + [a] == [a];
    AppendNewSnoc([], [a], b);
    assert [a] + [b] == [a, b];
    AppendNewSnoc([], [a, b], c);
    assert [a, b] + [c] == [a, b, c];
    AppendNewSnoc([], [a, b, c], c);
    assert [a, b, c] + [c] == [a, b, c, c];
  }

  /** Inserting {"good", "morning"} in front of {"hello", "world"} inserts
      both; inserting them again inserts nothing. */
  lemma InsertRangeVectors()
    ensures Accepted({"hello", "world"}, ["good", "morning"]) == ["good", "morning"]
    ensures Accepted({"good", "morning", "hello", "world"}, ["good", "morning"]) == []
  {
    AcceptedIsEmpty({"good", "morning", "hello", "world"}, ["good", "morning"]);
  }

  /** erase_if with "is even" on {1, 2, 3, 4, 5, 6} keeps {1, 3, 5} and
      removes 3 elements. Stated for any six values in the roles of 1 to 6
      and a predicate that holds exactly on the 2nd, 4th and 6th. */
  lemma EraseIfVector<T>(a: T, b: T, c: T, d: T, e: T, f: T, pred: T -> bool)
    requires !pred(a) && pred(b) && !pred(c) && pred(d) && !pred(e) && pred(f)
    ensures Remaining([a, b, c, d, e, f], pred) == [a, c, e]
    ensures CountWhere([a, b, c, d, e, f], pred) == 3
  {
    RemainingSnoc([], pred, a);
    assert [] + [a] == [a];
    RemainingSnoc([a], pred, b);
    assert [a] + [b] == [a, b];
    RemainingSnoc([a, b], pred, c);
    assert [a, b] + [c] == [a, b, c];
    RemainingSnoc([a, b, c], pred, d);
    assert [a, b, c] + [d] == [a, b, c, d];
    RemainingSnoc([a, b, c, d], pred, e);
    assert [a, b, c, d] + [e] == [a, b, c, d, e];
    RemainingSnoc([a, b, c, d, e], pred, f);
    assert [a, b, c, d, e] + [f] == [a, b, c, d, e, f];
  }

  /** The usual order on integers, as a three-way comparison. */
  function IntCompare(x: int, y: int): (o: Ordering)
    ensures o == Eq <==> x == y
    ensures o == Lt <==> x < y
  {
    if x < y then Lt else if x == y then Eq else Gt
  }

  lemma IntCompareIsComparator()
    ensures IsComparator(IntCompare)
  {
  }

  /** The comparison tests on strings, with integers standing for the
      strings in their order: "Apple" 1, "Hello" 2, "World" 3, "morning" 4,
      "world" 5 (capital letters sort before small ones). The first group
      is the test of the six operators, the second that of operator<=>. */
  lemma ComparisonVectors()
    ensures IsComparator(IntCompare)
    ensures Equal<int>([], []) && !Equal([2], [])
    ensures NotEqual([2], [3], IntCompare)
    ensures Less([1], [2], IntCompare) && LessEq([1], [2], IntCompare) && LessEq([2], [3], IntCompare)
    ensures Greater([2], [1], IntCompare) && GreaterEq([2], [1], IntCompare) && GreaterEq([3], [2], IntCompare)
    ensures ThreeWay([], [], IntCompare) == Eq && ThreeWay([2], [2], IntCompare) == Eq
    ensures ThreeWay([2], [2, 5], IntCompare) == Lt
    ensures ThreeWay([1], [2], IntCompare) == Lt
    ensures ThreeWay([4, 1], [2], IntCompare) == Gt
  {
    IntCompareIsComparator();
  }
}
