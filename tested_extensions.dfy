/** Operations that the repository's tests call on deque_of_unique but that
    src/dequeofunique.h does not define: find, contains, assign, and the
    non-member erase and erase_if. Their behaviour here follows the test
    expectations in tests/test_dequeofunique.cpp, not header code. */
module TestedExtensions {
  import opened UniqueSeq
  import opened ContainerOfUnique

  /** find: the position of `value`, or the size (the end position) when it
      is absent. The index answers membership; the sequence is then scanned. */
  method Find<T(==)>(d: DequeOfUnique<T>, value: T) returns (idx: nat)
    requires d.Valid()
    ensures idx <= |d.deque|
    ensures idx < |d.deque| <==> value in d.deque
    ensures idx < |d.deque| ==> d.deque[idx] == value
  {
    if value !in d.members {
      return |d.deque|;
    }
    idx := 0;
    while idx < |d.deque| && d.deque[idx] != value
      invariant idx <= |d.deque|
      invariant value !in d.deque[..idx]
    {
      assert d.deque[..idx + 1] == d.deque[..idx] + [d.deque[idx]];
      idx := idx + 1;
    }
  }

  /** contains: the membership index answers whether the sequence holds `value`. */
  function Contains<T(==)>(d: DequeOfUnique<T>, value: T): (r: bool)
    reads d
    requires d.Valid()
    ensures r <==> value in d.deque
  {
    value in d.members
  }

  /** The non-member erase(container, value): removes the one occurrence of
      `value` if there is one and returns how many were removed (0 or 1). */
  method EraseValue<T(==)>(d: DequeOfUnique<T>, value: T) returns (count: nat)
    requires d.Valid()
    modifies d
    ensures d.Valid()
    ensures value !in d.members
    ensures count == if value in old(d.members) then 1 else 0
    ensures count == 0 ==> d.deque == old(d.deque)
    ensures count == 1 ==> exists k :: 0 <= k < |old(d.deque)| && old(d.deque)[k] == value &&
                                       d.deque == old(d.deque)[..k] + old(d.deque)[k + 1..]
  {
    if value !in d.members {
      return 0;
    }
    var idx := Find(d, value);
    ghost var before := d.deque;
    var it := d.Erase(idx);
    assert before[idx] == value;
    count := 1;
  }

  /** erase_if: removes every element satisfying `pred`, testing each once in
      sequence order, keeps the others in their order, and returns how many
      were removed. */
  method EraseIf<T(==)>(d: DequeOfUnique<T>, pred: T -> bool) returns (count: nat)
    requires d.Valid()
    modifies d
    ensures d.Valid()
    ensures d.deque == Remaining(old(d.deque), pred)
    ensures count == CountWhere(old(d.deque), pred)
  {
    ghost var s0 := d.deque;
    var i := 0;
    ghost var j := 0;
    count := 0;
    while i < |d.deque|
      invariant d.Valid()
      invariant 0 <= i <= |d.deque| && 0 <= j <= |s0|
      invariant d.deque[..i] == Remaining(s0[..j], pred)
      invariant d.deque[i..] == s0[j..]
      invariant count == CountWhere(s0[..j], pred)
      decreases |d.deque| - i
    {
      EraseIfStep(s0, pred, j, d.deque, i);
      if pred(d.deque[i]) {
        var it := d.Erase(i);
        count := count + 1;
      } else {
        i := i + 1;
      }
      j := j + 1;
    }
    assert s0[j..] == [];
    assert s0[..j] == s0;
    assert d.deque[..i] == d.deque;
  }

  /** assign(range) and assign(ilist): the old contents are replaced by the
      de-duplicated input. */
  method Assign<T(==)>(d: DequeOfUnique<T>, xs: seq<T>)
    requires d.Valid()
    modifies d
    ensures d.Valid()
    ensures d.deque == Dedup(xs) && d.members == Elements(xs)
  {
    d.Clear();
    d.PushBackRange(xs);
  }
}
