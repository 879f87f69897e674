/** The container deque_of_unique: a double-ended sequence that rejects
    duplicates. It owns an ordered store (`deque`, the source's deque_) and a
    membership index (`members`, the source's set_); every mutator consults
    or updates the index and changes the sequence only on success, so the
    two stay in step. Positions are indices into the sequence. */
module ContainerOfUnique {
  import opened UniqueSeq
  import opened Outcomes

  class DequeOfUnique<T(==)> {
    /** The ordered sequence store. */
    var deque: seq<T>
    /** The membership index. */
    var members: set<T>

    /** The index holds exactly the values of the sequence, and no value
        occurs twice in the sequence. */
    ghost predicate Valid()
      reads this
    {
      members == Elements(deque) && NoDuplicates(deque)
    }

    /** The default constructor: both stores empty. */
    constructor ()
      ensures Valid() && deque == [] && members == {}
    {
      deque := [];
      members := {};
    }

    /** The range and initializer-list constructors: the input offered to
        push_back front to back, so later duplicates are dropped. */
    constructor FromRange(xs: seq<T>)
      ensures Valid()
      ensures deque == Dedup(xs) && members == Elements(xs)
    {
      deque := [];
      members := {};
      new;
      PushBackRange(xs);
    }

    /** The copy constructor: pushes the other container's sequence. */
    constructor Copy(other: DequeOfUnique<T>)
      requires other.Valid()
      ensures Valid()
      ensures deque == other.deque && members == other.members
    {
      deque := [];
      members := {};
      new;
      var anyAdded := PushBackFrom(other);
      assert [] + other.deque == other.deque;
      AppendNewOfDistinct([], other.deque);
    }

    /** The defaulted copy assignment: both stores copied member-wise. */
    method CopyAssign(other: DequeOfUnique<T>)
      requires other.Valid()
      modifies this
      ensures Valid()
      ensures deque == old(other.deque) && members == old(other.members)
    {
      deque := other.deque;
      members := other.members;
    }

    /** Initializer-list assignment: builds a temporary from the list and
        swaps its stores in, so the old contents are replaced, not merged. */
    method AssignList(ilist: seq<T>)
      requires Valid()
      modifies this
      ensures Valid()
      ensures deque == Dedup(ilist) && members == Elements(ilist)
    {
      var temp := new DequeOfUnique.FromRange(ilist);
      Swap(temp);
    }

    /** Bounds-checked access: the element at `pos`, or out-of-range when
        `pos` is not below the size. */
    function At(pos: nat): (r: Checked<T>)
      reads this
      requires Valid()
      ensures r.Ok? <==> pos < |deque|
      ensures r.Ok? ==> r.value == deque[pos] && r.value in members
    {
      if pos < |deque| then Ok(deque[pos]) else OutOfRange
    }

    /** The first element; the caller must ensure the container is not empty. */
    function Front(): (r: T)
      reads this
      requires Valid() && |deque| > 0
      ensures At(0) == Ok(r)
    {
      deque[0]
    }

    /** The last element; the caller must ensure the container is not empty. */
    function Back(): (r: T)
      reads this
      requires Valid() && |deque| > 0
      ensures At(|deque| - 1) == Ok(r)
    {
      deque[|deque| - 1]
    }

    /** Unchecked access (operator[]): agrees with `at` on every index in range. */
    function Get(pos: nat): (r: T)
      reads this
      requires Valid() && pos < |deque|
      ensures At(pos) == Ok(r)
    {
      deque[pos]
    }

    /** clear: empties both stores. */
    method Clear()
      requires Valid()
      modifies this
      ensures Valid() && deque == [] && members == {}
    {
      deque := [];
      members := {};
    }

    /** erase(pos): a no-op on an empty container; otherwise removes the
        element at `pos` from both stores. The returned position is `pos`,
        where the following element now sits. */
    method Erase(pos: nat) returns (it: nat)
      requires Valid()
      requires if deque == [] then pos == 0 else pos < |deque|
      modifies this
      ensures Valid()
      ensures it == pos
      ensures old(deque) == [] ==> deque == old(deque) && members == old(members)
      ensures old(deque) != [] ==>
                deque == old(deque)[..pos] + old(deque)[pos + 1..] &&
                members == old(members) - {old(deque)[pos]}
    {
      if |deque| == 0 {
        return |deque|;
      }
      RemoveSlice(deque, pos, pos + 1);
      assert deque[pos..pos + 1] == [deque[pos]];
      ElementsSnoc([], deque[pos]);
      members := members - {deque[pos]};
      deque := deque[..pos] + deque[pos + 1..];
      it := pos;
    }

    /** erase(first, last): removes the slice [first, last) and drops its
        values from the index; an empty range is a no-op returning `last`.
        The returned position is `first` otherwise. */
    method EraseRange(first: nat, last: nat) returns (it: nat)
      requires Valid() && first <= last <= |deque|
      modifies this
      ensures Valid()
      ensures it == first
      ensures deque == old(deque)[..first] + old(deque)[last..]
      ensures members == old(members) - Elements(old(deque)[first..last])
    {
      if first == last {
        assert deque[..first] + deque[last..] == deque;
        return last;
      }
      var k := first;
      while k < last
        invariant first <= k <= last
        invariant deque == old(deque)
        invariant members == old(members) - Elements(deque[first..k])
      {
        assert deque[first..k + 1] == deque[first..k] + [deque[k]];
        ElementsSnoc(deque[first..k], deque[k]);
        members := members - {deque[k]};
        k := k + 1;
      }
      RemoveSlice(deque, first, last);
      deque := deque[..first] + deque[last..];
      it := first;
    }

    /** insert(pos, value): inserts `value` before position `pos` unless it
        is already present. Either way the returned position is `pos`; the
        flag says whether anything was inserted. */
    method Insert(pos: nat, value: T) returns (it: nat, inserted: bool)
      requires Valid() && pos <= |deque|
      modifies this
      ensures Valid()
      ensures inserted <==> value !in old(members)
      ensures it == pos
      ensures deque == if inserted then old(deque)[..pos] + [value] + old(deque)[pos..]
                       else old(deque)
      ensures members == old(members) + {value}
    {
      var isNew := value !in members;
      if isNew {
        InsertFreshAt(pos, value);
        return pos, true;
      }
      return pos, false;
    }

    /** insert(pos, first, last) and insert(pos, ilist): offers the values of
        `xs` in order against the evolving index and inserts the accepted ones
        contiguously at `pos`, in input order. The returned position is `pos`
        whether or not anything was inserted. */
    method InsertRange(pos: nat, xs: seq<T>) returns (it: nat)
      requires Valid() && pos <= |deque|
      modifies this
      ensures Valid()
      ensures deque == old(deque)[..pos] + Accepted(old(members), xs) + old(deque)[pos..]
      ensures members == old(members) + Elements(xs)
      ensures it == pos
    {
      ghost var d0, m0 := deque, members;
      var posIndex := pos;
      var firstInsertedIndex := posIndex;
      var tempPos := pos;
      var anyInserted := false;
      ghost var acc: seq<T> := [];
      var i := 0;
      while i < |xs|
        invariant 0 <= i <= |xs|
        invariant acc == Accepted(m0, xs[..i])
        invariant members == m0 + Elements(xs[..i])
        invariant deque == d0[..pos] + acc + d0[pos..]
        invariant tempPos == pos + |acc|
        invariant anyInserted <==> acc != []
        invariant anyInserted ==> firstInsertedIndex == pos
      {
        var x := xs[i];
        InsertRangeStep(d0, pos, m0, xs, i);
        if x !in members {
          members := members + {x};
          deque := deque[..tempPos] + [x] + deque[tempPos..];
          acc := acc + [x];
          if !anyInserted {
            firstInsertedIndex := tempPos;
            anyInserted := true;
          }
          tempPos := tempPos + 1;
        }
        i := i + 1;
      }
      assert xs[..|xs|] == xs;
      AcceptedDistinct(m0, xs);
      SpliceDistinct(d0, pos, acc);
      it := if anyInserted then firstInsertedIndex else posIndex;
    }

    /** emplace(pos, value): like insert, the candidate is checked against the
        index before it occupies a slot of the sequence. */
    method Emplace(pos: nat, value: T) returns (it: nat, inserted: bool)
      requires Valid() && pos <= |deque|
      modifies this
      ensures Valid()
      ensures inserted <==> value !in old(members)
      ensures it == pos
      ensures deque == if inserted then old(deque)[..pos] + [value] + old(deque)[pos..]
                       else old(deque)
      ensures members == old(members) + {value}
    {
      if value !in members {
        InsertFreshAt(pos, value);
        return pos, true;
      }
      return pos, false;
    }

    /** emplace_front: present with the new front element on success, absent
        (and nothing changed) on a duplicate. */
    method EmplaceFront(value: T) returns (r: Option<T>)
      requires Valid()
      modifies this
      ensures Valid()
      ensures r.Some? <==> value !in old(members)
      ensures r.Some? ==> deque == [value] + old(deque) && r.value == deque[0]
      ensures r.None? ==> deque == old(deque)
      ensures members == old(members) + {value}
    {
      if value !in members {
        InsertFreshAt(0, value);
        assert deque == [value] + old(deque);
        return Some(deque[0]);
      }
      return None;
    }

    /** emplace_back: present with the new back element on success, absent
        (and nothing changed) on a duplicate. */
    method EmplaceBack(value: T) returns (r: Option<T>)
      requires Valid()
      modifies this
      ensures Valid()
      ensures r.Some? <==> value !in old(members)
      ensures r.Some? ==> deque == old(deque) + [value] && r.value == deque[|deque| - 1]
      ensures r.None? ==> deque == old(deque)
      ensures members == old(members) + {value}
    {
      if value !in members {
        InsertFreshAt(|deque|, value);
        assert deque == old(deque) + [value];
        return Some(deque[|deque| - 1]);
      }
      return None;
    }

    /** pop_front: removes the first element from both stores; a no-op on an
        empty container. */
    method PopFront()
      requires Valid()
      modifies this
      ensures Valid()
      ensures old(deque) == [] ==> deque == old(deque) && members == old(members)
      ensures old(deque) != [] ==>
                deque == old(deque)[1..] && members == old(members) - {old(deque)[0]}
    {
      if |deque| > 0 {
        var f := deque[0];
        RemoveSlice(deque, 0, 1);
        assert deque[0..1] == [f];
        ElementsSnoc([], f);
        deque := deque[1..];
        members := members - {f};
      }
    }

    /** pop_back: removes the last element from both stores; a no-op on an
        empty container. */
    method PopBack()
      requires Valid()
      modifies this
      ensures Valid()
      ensures old(deque) == [] ==> deque == old(deque) && members == old(members)
      ensures old(deque) != [] ==>
                deque == old(deque)[..|old(deque)| - 1] &&
                members == old(members) - {old(deque)[|old(deque)| - 1]}
    {
      if |deque| > 0 {
        var n := |deque|;
        var b := deque[n - 1];
        RemoveSlice(deque, n - 1, n);
        assert deque[n - 1..n] == [b];
        assert deque[..n - 1] + deque[n..] == deque[..n - 1];
        ElementsSnoc([], b);
        deque := deque[..n - 1];
        members := members - {b};
      }
    }

    /** push_front: true and `value` prepended when it is new; false and
        nothing changed when it is already present. */
    method PushFront(value: T) returns (added: bool)
      requires Valid()
      modifies this
      ensures Valid()
      ensures added <==> value !in old(members)
      ensures deque == if added then [value] + old(deque) else old(deque)
      ensures members == old(members) + {value}
    {
      var isNew := value !in members;
      if isNew {
        InsertFreshAt(0, value);
        assert deque == [value] + old(deque);
      }
      added := isNew;
    }

    /** push_back: true and `value` appended when it is new; false and
        nothing changed when it is already present. */
    method PushBack(value: T) returns (added: bool)
      requires Valid()
      modifies this
      ensures Valid()
      ensures added <==> value !in old(members)
      ensures deque == if added then old(deque) + [value] else old(deque)
      ensures members == old(members) + {value}
    {
      var isNew := value !in members;
      if isNew {
        InsertFreshAt(|deque|, value);
        assert deque == old(deque) + [value];
      }
      added := isNew;
    }

    /** _push_back(first, last): push_back of every value of the range, front
        to back. */
    method PushBackRange(xs: seq<T>)
      requires Valid()
      modifies this
      ensures Valid()
      ensures deque == AppendNew(old(deque), xs)
      ensures members == old(members) + Elements(xs)
    {
      var i := 0;
      while i < |xs|
        invariant 0 <= i <= |xs|
        invariant Valid()
        invariant deque == AppendNew(old(deque), xs[..i])
        invariant members == old(members) + Elements(xs[..i])
      {
        PushBackStep(old(deque), old(members), xs, i);
        var added := PushBack(xs[i]);
        i := i + 1;
      }
      assert xs[..|xs|] == xs;
    }

    /** _push_back(const deque_of_unique &): _push_back of the other
        container's sequence. */
    method PushBackFrom(other: DequeOfUnique<T>) returns (anyAdded: bool)
      requires Valid()
      modifies this
      ensures Valid()
      ensures deque == AppendNew(old(deque), old(other.deque))
      ensures members == old(members) + Elements(old(other.deque))
      ensures anyAdded <==> !(Elements(old(other.deque)) <= old(members))
    {
      anyAdded := PushBackAll(other.deque);
    }

    /** _push_back(const std::deque &): push_back of every value, reporting
        whether any of them was added. */
    method PushBackAll(other: seq<T>) returns (anyAdded: bool)
      requires Valid()
      modifies this
      ensures Valid()
      ensures deque == AppendNew(old(deque), other)
      ensures members == old(members) + Elements(other)
      ensures anyAdded <==> !(Elements(other) <= old(members))
    {
      anyAdded := false;
      var i := 0;
      while i < |other|
        invariant 0 <= i <= |other|
        invariant Valid()
        invariant deque == AppendNew(old(deque), other[..i])
        invariant members == old(members) + Elements(other[..i])
        invariant anyAdded <==> |deque| > |old(deque)|
      {
        PushBackStep(old(deque), old(members), other, i);
        var added := PushBack(other[i]);
        anyAdded := anyAdded || added;
        i := i + 1;
      }
      assert other[..|other|] == other;
      AppendNewUnchanged(old(deque), other);
    }

    /** swap: exchanges both stores with `other` (also with itself). */
    method Swap(other: DequeOfUnique<T>)
      requires Valid() && other.Valid()
      modifies this, other
      ensures Valid() && other.Valid()
      ensures deque == old(other.deque) && members == old(other.members)
      ensures other.deque == old(deque) && other.members == old(members)
    {
      var d, m := deque, members;
      deque, members := other.deque, other.members;
      other.deque, other.members := d, m;
    }

    /** empty: whether the sequence has no element, equivalently the index. */
    function Empty(): (e: bool)
      reads this
      requires Valid()
      ensures e <==> members == {}
      ensures e <==> Size() == 0
    {
      assert |deque| > 0 ==> deque[0] in Elements(deque);
      DistinctCardinality(deque);
      |deque| == 0
    }

    /** size: the length of the sequence, which is also the size of the index. */
    function Size(): (n: nat)
      reads this
      requires Valid()
      ensures n == |members|
    {
      DistinctCardinality(deque);
      |deque|
    }

    /** Puts a value absent from the index at `pos` in both stores; the
        shared commit step of insert, emplace and the push operations. */
    method InsertFreshAt(pos: nat, value: T)
      requires Valid() && pos <= |deque| && value !in members
      modifies this
      ensures Valid()
      ensures deque == old(deque)[..pos] + [value] + old(deque)[pos..]
      ensures members == old(members) + {value}
    {
      ElementsSnoc([], value);
      SpliceDistinct(deque, pos, [value]);
      members := members + {value};
      deque := deque[..pos] + [value] + deque[pos..];
    }
  }
}
