# deque_of_unique in Dafny

A model of `containerofunique::deque_of_unique<T>`, a double-ended sequence
that rejects duplicates. The container owns two stores: the ordered sequence
`deque_` and the membership index `set_`. The inserting mutators check the index
first and change the sequence only when the value is new. The removing ones
drop the value from both stores. `clear`, `pop_front` and `pop_back` change
the sequence before the index. After every public operation the two stores
agree.

The model is the class `ContainerOfUnique.DequeOfUnique<T>`. Its field
`deque: seq<T>` is the sequence store and its field `members: set<T>` is the
index. `Valid()` is the invariant the source keeps: `members` is exactly the
set of values of `deque`, and no value occurs twice in `deque`. Every
mutating method ensures `Valid()`, and states its new sequence and index in
terms of the old ones. All of them except `CopyAssign`, which overwrites
both stores, also require it. Positions (the source's iterators) are
indices into the sequence.

Files:

- `unique_seq.dfy` (module `UniqueSeq`): duplicate-free sequences and the
  two specification functions of the bulk operations. `AppendNew` is what
  the `_push_back` loops build. `Accepted(seen, xs)` is an independent
  filter: the values of `xs` that are not in `seen` and do not occur
  earlier in `xs`. `AppendNewIsAccepted` proves the two agree.
- `deque_of_unique.dfy` (module `ContainerOfUnique`): the class itself.
- `comparison.dfy` (module `Comparison`): the non-member comparison
  operators over the two sequences, for an element ordering `cmp` that is a
  strong ordering (`IsComparator`).
- `tested_extensions.dfy` (module `TestedExtensions`): `find`, `contains`,
  `assign`, non-member `erase` and `erase_if`. The tests call these, but
  src/dequeofunique.h does not define them. Their behaviour here comes from
  the test expectations, not from header code.
- `test_vectors.dfy` (module `TestVectors`): concrete cases from the tests,
  stated on the specification functions.
- `outcomes.dfy` (module `Outcomes`): `Option` (the optional reference of
  `emplace_front`/`emplace_back`) and `Checked` (the result of `at`, or its
  out-of-range condition).

Two return values of the header that are easy to misread:

- Range insert returns the original position in every case. The code sets
  `first_inserted_index` while `temp_pos` is still at `pos`. So "the first
  inserted element" and "the original position" are the same index.
- `erase(first, last)` returns `last` for an empty range. Otherwise it
  returns the position after the removed slice, which is `first`. Both are
  the same index, `first`.

## Model

| member | source | states |
|---|---|---|
| `ContainerOfUnique.DequeOfUnique.constructor` | src/dequeofunique.h:36 | The default constructor leaves both stores empty and the invariant holding. |
| `ContainerOfUnique.DequeOfUnique.FromRange` | src/dequeofunique.h:38-44 | Constructing from a range or an initializer list gives `Dedup(xs)`, and the index holds exactly the input's values. |
| `ContainerOfUnique.DequeOfUnique.Copy` | src/dequeofunique.h:46 | The copy constructor pushes the other container's sequence and ends with the same sequence and index as the other container. |
| `ContainerOfUnique.DequeOfUnique.CopyAssign` | src/dequeofunique.h:53 | The defaulted copy assignment copies both stores from the other container. |
| `ContainerOfUnique.DequeOfUnique.AssignList` | src/dequeofunique.h:55-60 | Initializer-list assignment replaces the old contents with `Dedup(ilist)`. Nothing of the old contents is kept. |
| `ContainerOfUnique.DequeOfUnique.At` | src/dequeofunique.h:63 | `at(pos)` gives the element at `pos` exactly when `pos < size`, and that element is in the index. Otherwise it gives out-of-range, also on an empty container. |
| `ContainerOfUnique.DequeOfUnique.Front` | src/dequeofunique.h:64 | On a non-empty container, `front` is what `at(0)` gives. |
| `ContainerOfUnique.DequeOfUnique.Get` | src/dequeofunique.h:65 | On an index in range, unchecked `operator[]` agrees with `at`. |
| `ContainerOfUnique.DequeOfUnique.Back` | src/dequeofunique.h:66 | On a non-empty container, `back` is what `at(size - 1)` gives. |
| `ContainerOfUnique.DequeOfUnique.Clear` | src/dequeofunique.h:76-79 | `clear` empties both stores together. |
| `ContainerOfUnique.DequeOfUnique.Erase` | src/dequeofunique.h:81-87 | On an empty container `erase(pos)` changes nothing. Otherwise it removes the element at `pos` from the sequence and its value from the index. It returns `pos` in both cases. |
| `ContainerOfUnique.DequeOfUnique.EraseRange` | src/dequeofunique.h:89-99 | The new sequence is the old one without the slice `[first, last)`, and the index loses exactly the slice's values. It returns `first`, which equals `last` for the empty, no-op range. |
| `ContainerOfUnique.DequeOfUnique.Insert` | src/dequeofunique.h:101-106 | A new value is inserted before `pos` and the flag is true. A duplicate leaves the sequence unchanged and the flag is false. The returned position is `pos` either way. |
| `ContainerOfUnique.DequeOfUnique.InsertRange` | src/dequeofunique.h:115-138 | Range insert puts exactly `Accepted(old index, xs)` contiguously at `pos`, in input order, and adds all values of `xs` to the index. It returns `pos`, whether or not anything was inserted. |
| `ContainerOfUnique.DequeOfUnique.Emplace` | src/dequeofunique.h:140-147 | `emplace(pos, v)` checks `v` against the index before it takes a slot. On success it inserts before `pos` and returns `(pos, true)`. On a duplicate it returns `(pos, false)` with the sequence unchanged. |
| `ContainerOfUnique.DequeOfUnique.EmplaceFront` | src/dequeofunique.h:149-155 | On a new value the result is present, the value is prepended, and the result is the new front. On a duplicate the result is absent and the sequence is unchanged. |
| `ContainerOfUnique.DequeOfUnique.EmplaceBack` | src/dequeofunique.h:157-163 | On a new value the result is present, the value is appended, and the result is the new back. On a duplicate the result is absent and the sequence is unchanged. |
| `ContainerOfUnique.DequeOfUnique.PopFront` | src/dequeofunique.h:165-171 | On an empty container `pop_front` changes nothing. Otherwise it removes the first element from the sequence and its value from the index, and keeps the rest in order. |
| `ContainerOfUnique.DequeOfUnique.PopBack` | src/dequeofunique.h:173-179 | On an empty container `pop_back` changes nothing. Otherwise it removes the last element from the sequence and its value from the index, and keeps the rest in order. |
| `ContainerOfUnique.DequeOfUnique.PushFront` | src/dequeofunique.h:181-187 | The result is true exactly when the value was absent. Then the new sequence is `[v] + old`. Otherwise nothing changes. |
| `ContainerOfUnique.DequeOfUnique.PushBack` | src/dequeofunique.h:198-204 | The result is true exactly when the value was absent. Then the new sequence is `old + [v]`. Otherwise nothing changes. |
| `ContainerOfUnique.DequeOfUnique.PushBackRange` | src/dequeofunique.h:215-220 | `_push_back(first, last)` leaves `AppendNew(old, xs)` in the sequence and adds all values of `xs` to the index. |
| `ContainerOfUnique.DequeOfUnique.PushBackFrom` | src/dequeofunique.h:222-224 | `_push_back(other)` appends the new values of the other container's sequence. It reports whether any value was added. |
| `ContainerOfUnique.DequeOfUnique.PushBackAll` | src/dequeofunique.h:226-233 | The loop leaves `AppendNew(old, other)`. It returns true exactly when some value of `other` was not already in the index. |
| `ContainerOfUnique.DequeOfUnique.Swap` | src/dequeofunique.h:235-238 | `swap` exchanges both stores of the two containers. With itself, it changes nothing. |
| `ContainerOfUnique.DequeOfUnique.Empty` | src/dequeofunique.h:241 | `empty` is true exactly when the index is empty, and exactly when `size` is 0. |
| `ContainerOfUnique.DequeOfUnique.Size` | src/dequeofunique.h:243 | The length of the sequence equals the size of the index. |
| `UniqueSeq.DistinctCardinality` | src/dequeofunique.h:253-254 | A duplicate-free sequence has as many distinct values as positions, so the two stores have equal sizes. |
| `UniqueSeq.SpliceDistinct` | src/dequeofunique.h:101-106 | Inserting new, distinct values anywhere keeps the sequence duplicate-free and adds exactly those values. |
| `UniqueSeq.RemoveSlice` | src/dequeofunique.h:89-99 | Removing a slice keeps the sequence duplicate-free and removes exactly the slice's values, since none of them occurs elsewhere. |
| `UniqueSeq.AppendNew` | src/dequeofunique.h:215-233 | Offering values to push_back extends the old sequence. The values afterwards are the old ones plus the offered ones. |
| `UniqueSeq.AppendNewDistinct` | src/dequeofunique.h:215-233 | A value is appended only when it is absent, so pushing values keeps a duplicate-free sequence duplicate-free. |
| `UniqueSeq.AppendNewUnchanged` | src/dequeofunique.h:226-233 | Pushing values leaves the sequence unchanged exactly when every value is already present. Otherwise the sequence grows, which is when `_push_back` reports true. |
| `UniqueSeq.PushBackStep` | src/dequeofunique.h:228-231 | One push_back in the loop appends the value exactly when the index lacks it, and the index grows by that value. |
| `UniqueSeq.Dedup` | src/dequeofunique.h:38-46 | What the constructors build is duplicate-free and has exactly the input's values. |
| `UniqueSeq.Accepted` | src/dequeofunique.h:115-131 | The values range insert accepts are exactly the input's values that are not already present. |
| `UniqueSeq.AcceptedDistinct` | src/dequeofunique.h:122-131 | Range insert accepts each value at most once, so the accepted values are duplicate-free. |
| `UniqueSeq.InsertRangeStep` | src/dequeofunique.h:122-131 | One iteration of the range insert loop adds the value to the index. When the value is new, it is accepted and goes right after the values accepted so far. Otherwise nothing else changes. |
| `UniqueSeq.AppendNewIsAccepted` | src/dequeofunique.h:215-220 | Pushing a range appends exactly the accepted values. Later duplicates are dropped and first occurrences keep their order. |
| `UniqueSeq.AcceptedOfDistinct` | src/dequeofunique.h:122-131 | Input values that are distinct and new are all accepted, in input order. |
| `UniqueSeq.AcceptedIsEmpty` | src/dequeofunique.h:120-133 | Range insert accepts nothing exactly when every input value is already present. Then the sequence is unchanged. |
| `UniqueSeq.AppendNewOfDistinct` | src/dequeofunique.h:222-233 | Pushing values that keep the whole sequence duplicate-free appends all of them, so a copy equals its source. |
| `UniqueSeq.DedupFixpoint` | src/dequeofunique.h:38-44 | Construction from a range leaves the input unchanged exactly when the input has no duplicates. |
| `UniqueSeq.DedupIdempotent` | src/dequeofunique.h:38-46 | Constructing again from a constructed container's contents changes nothing. |
| `UniqueSeq.DedupIsFirstOccurrences` | src/dequeofunique.h:38-44 | Construction keeps first occurrences in input order, as the accepted values for an empty index. |
| `UniqueSeq.Remaining` | tests/test_dequeofunique.cpp:1450-1518 | The values kept by `erase_if` are those that fail the predicate, in order. Their number plus the removed count is the old size. |
| `UniqueSeq.RemainingDistinct` | tests/test_dequeofunique.cpp:1450-1518 | `erase_if` keeps a duplicate-free sequence duplicate-free. |
| `UniqueSeq.EraseIfStep` | tests/test_dequeofunique.cpp:1450-1518 | One `erase_if` step either counts and removes the visited value, or keeps it and moves on. The unvisited rest follows the kept values. |
| `UniqueSeq.CountWhere` | tests/test_dequeofunique.cpp:1450-1459 | The count `erase_if` returns is at most the old size. |
| `Comparison.ThreeWay` | src/dequeofunique.h:302-307 | The three-way comparison of the sequences says equal exactly when they are equal. |
| `Comparison.ThreeWayLess` | src/dequeofunique.h:302-307 | The three-way comparison says less exactly when the first sequence is lexicographically below the second. That means a smaller element at the first difference, or a proper prefix. |
| `Comparison.ThreeWayFlip` | src/dequeofunique.h:302-307 | Comparing the other way round gives the flipped result. |
| `Comparison.ThreeWayTransitive` | src/dequeofunique.h:302-307 | Less-than of the three-way comparison is transitive. |
| `Comparison.Equal` | src/dequeofunique.h:260-264 | `==` holds exactly when the sequences have the same length and the same element at every position. |
| `Comparison.NotEqual` | src/dequeofunique.h:266-270 | `!=` holds exactly when one sequence is below the other, so the same elements in another order compare unequal. |
| `Comparison.Less` | src/dequeofunique.h:272-276 | `<` is lexicographic order of the sequences. |
| `Comparison.LessEq` | src/dequeofunique.h:278-284 | `<=` holds exactly when the second sequence is not below the first, and exactly when the first is below or equal. |
| `Comparison.Greater` | src/dequeofunique.h:286-290 | `>` holds exactly when the second sequence is below the first. |
| `Comparison.GreaterEq` | src/dequeofunique.h:292-298 | `>=` holds exactly when the first sequence is not below the second, and exactly when the second is below or equal. |
| `Comparison.LessIsStrictOrder` | src/dequeofunique.h:272-276 | `<` is irreflexive, asymmetric and transitive. |
| `TestedExtensions.Find` | tests/test_dequeofunique.cpp:1302-1341 | Extension. `find` gives a position at which `value` sits when it is present, and the end position exactly when it is absent. |
| `TestedExtensions.Contains` | tests/test_dequeofunique.cpp:1344-1368 | Extension. The index answers `contains` exactly as the sequence would. |
| `TestedExtensions.EraseValue` | tests/test_dequeofunique.cpp:1371-1448 | Extension. Non-member `erase` removes the one occurrence of a value and returns 1, or returns 0 and changes nothing. Afterwards the value is absent. |
| `TestedExtensions.EraseIf` | tests/test_dequeofunique.cpp:1450-1518 | Extension. `erase_if` keeps `Remaining(old, pred)` and returns the number of elements satisfying `pred`. |
| `TestedExtensions.Assign` | tests/test_dequeofunique.cpp:162-351 | Extension. `assign` replaces the contents with the de-duplicated input. |
| `TestVectors.DedupVector` | tests/test_dequeofunique.cpp:36-47 | `{1, 2, 3, 3}` constructs `{1, 2, 3}`. This holds for any three distinct values in those roles. |
| `TestVectors.InsertRangeVectors` | tests/test_dequeofunique.cpp:583-605 | Inserting `{"good", "morning"}` into `{"hello", "world"}` accepts both values. Inserting them again accepts none. |
| `TestVectors.EraseIfVector` | tests/test_dequeofunique.cpp:1450-1459 | `erase_if` with "is even" on `{1, ..., 6}` keeps `{1, 3, 5}` and removes 3 elements. This holds for any six values and any predicate that holds exactly on the 2nd, 4th and 6th. |
| `TestVectors.ComparisonVectors` | tests/test_dequeofunique.cpp:1251-1299 | The comparison tests with integers in place of the strings, in the same order. Empty containers are equal, and `{"Hello"}` differs from `{}` and from `{"World"}`. `{"Apple"}` is below `{"Hello"}`, which is below `{"World"}`. `{"Hello"}` is below its extension `{"Hello", "world"}`, and `{"morning", "Apple"}` is above `{"Hello"}`. |

## Left out

- The `Hash` and `KeyEqual` template parameters: the model uses Dafny's built-in equality on `T`.
- Iterators (`cbegin`, `cend`, `crbegin`, `crend`), reverse iteration and iterator invalidation: positions are indices.
- The `deque()` and `set()` accessors: the fields `deque` and `members` stand for these views. The source hands them out as const references, so clients cannot change them. In the model they are public `var` fields, so that read-only guarantee is not enforced: a client could assign them and break `Valid()`.
- The move constructor, move assignment and rvalue overloads of `insert`, `push_front` and `push_back`: they behave like the copy and lvalue versions as far as the container's state goes. The rvalue `push_front` and `push_back` (src/dequeofunique.h:189-195, 206-212) move the argument into a temporary before the membership check, so they consume the caller's object even on a duplicate; the rvalue `insert` (109-114) moves only on success. The model does not show what a move leaves in the caller's object.
- `noexcept`, `NOEXCEPT_CXX17` and the preprocessor version switches: Dafny has no exceptions, and every modelled operation is total on its stated domain.
- `emplace_front` and `emplace_back` (src/dequeofunique.h:150, 158) return an optional `std::reference_wrapper<T>`, a writable reference into the sequence through which a caller could overwrite the stored element and put the index out of step. The model returns the element's value in an `Option`, not a mutable alias.
- The variadic arguments of `emplace`, `emplace_front` and `emplace_back`: the model passes the value those arguments would construct.
- The initializer-list overload of `insert` (src/dequeofunique.h:136-138) is not a member of its own, since it only forwards to the range insert `InsertRange`. Likewise the initializer-list constructor (43-44) forwards to the range constructor `FromRange`.
- `size_type` is unbounded `nat`; the model ignores the maximum size of a `std::deque`.
- `pop_front` and `pop_back` (src/dequeofunique.h:167-169, 175-177) pass `set_.erase` a reference to the element just popped, which no longer exists. The model gives the intended effect: the popped value leaves the index.
- `operator<` (src/dequeofunique.h:275) does not compile as written (`lhs..deque()`), and the operators before C++20 use `<=>` anyway. The model gives the intended meaning, namely that the three-way comparison says less.
- `Erase`: the model needs `pos < size` on a non-empty container, since `erase(cend())` there is undefined behaviour in the source.
- `std::hash`/`std::unordered_set` performance (amortised O(1) membership) is not modelled. Only the functional behaviour is.
- Concurrency: the container is single-threaded and the model has none.
