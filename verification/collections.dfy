/** Collection helpers: `flatten` (a walk over nested lists, tuples, sets and ranges),
    `frequencies` (a count per distinct value) and `chunked` (fixed-size groups, the last
    one padded). */
module Collections {
  import opened Wrappers
  import opened Arithmetic

  type NonZero = i: int | i != 0 witness 1

  datatype SeqKind = List | Tuple | Set

  /** The Python values `flatten` tells apart. A set is given by its elements in iteration
      order; a `range` cannot be built with step 0. `Other` stands for any further value that
      is not a list, tuple, set or range (a float, a frozenset, bytes, an object), told apart
      only by identity. */
  datatype Py =
    | NoneValue
    | Int(i: int)
    | Str(s: string)
    | Dict(entries: seq<(Py, Py)>)
    | Other(id: nat)
    | Seq(kind: SeqKind, items: seq<Py>)
    | Range(start: int, stop: int, step: NonZero)

  /** `isinstance(x, (list, tuple, set, range))`. */
  predicate IsContainer(x: Py): (r: bool)
    ensures !r <==> x.NoneValue? || x.Int? || x.Str? || x.Dict? || x.Other?
  {
    x.Seq? || x.Range?
  }

  /** The number of values `range(start, stop, step)` yields, in closed form. */
  function RangeLength(start: int, stop: int, step: NonZero): nat {
    if step > 0 then
      if start < stop then (stop - start - 1) / step + 1 else 0
    else
      if start > stop then (start - stop - 1) / (0 - step as int) + 1 else 0
  }

  /** The values `range(start, stop, step)` yields, one step at a time. */
  function RangeItems(start: int, stop: int, step: NonZero): (r: seq<int>)
    ensures |r| == RangeLength(start, stop, step)
    ensures forall i :: 0 <= i < |r| ==> r[i] == start + i * step
    decreases if step > 0 then stop - start else start - stop
  {
    if (step > 0 && start < stop) || (step < 0 && start > stop) then
      var rest := RangeItems(start + step, stop, step);
      var r := [start] + rest;
      assert forall i :: 1 <= i < |r| ==> r[i] == rest[i - 1] == start + step + (i - 1) * step;
      RangeLengthStep(start, stop, step);
      r
    else
      []
  }

  lemma RangeLengthStep(start: int, stop: int, step: NonZero)
    requires (step > 0 && start < stop) || (step < 0 && start > stop)
    ensures RangeLength(start, stop, step) == RangeLength(start + step, stop, step) + 1
  {
    var k: int := if step > 0 then step else 0 - step as int;
    var d := if step > 0 then stop - start - 1 else start - stop - 1;
    assert RangeLength(start, stop, step) == d / k + 1;
    if d >= k {
      DivShift(d - k, k);
      assert RangeLength(start + step, stop, step) == (d - k) / k + 1;
    } else {
      DivUnique(d, k, 0, d);
    }
  }

  function IntLeaves(ns: seq<int>): (r: seq<Py>)
    ensures |r| == |ns| && forall i :: 0 <= i < |r| ==> r[i] == Int(ns[i])
  {
    seq(|ns|, i requires 0 <= i < |ns| => Int(ns[i]))
  }

  /** What `generator(x)` yields: the leaves of a container in iteration order, any other
      value (None, str, dict, ...) as itself. */
  function Expand(x: Py): (r: seq<Py>)
    ensures forall y :: y in r ==> !IsContainer(y)
    decreases x
  {
    match x
    case Seq(_, items) => Leaves(items)
    case Range(start, stop, step) => IntLeaves(RangeItems(start, stop, step))
    case _ => [x]
  }

  /** What `generator` yields for each value of `xs` in turn. */
  function Leaves(xs: seq<Py>): (r: seq<Py>)
    ensures forall y :: y in r ==> !IsContainer(y)
    decreases xs
  {
    if |xs| == 0 then [] else Expand(xs[0]) + Leaves(xs[1..])
  }

  lemma LeavesOfOne(x: Py)
    requires x.Seq?
    ensures Leaves([x]) == Leaves(x.items)
  {
    assert [x][0] == x && [x][1..] == [];
    assert Leaves([x]) == Leaves(x.items) + Leaves([]);
  }

  /** `flatten(*values)`: the generator walks the argument tuple. */
  function Flatten(values: seq<Py>): (r: seq<Py>)
    ensures r == Leaves(values)
  {
    LeavesOfOne(Seq(Tuple, values));
    Leaves([Seq(Tuple, values)])
  }

  lemma {:induction false} LeavesAppend(a: seq<Py>, b: seq<Py>)
    ensures Leaves(a + b) == Leaves(a) + Leaves(b)
    decreases |a|
  {
    if |a| > 0 {
      assert (a + b)[0] == a[0] && (a + b)[1..] == a[1..] + b;
      LeavesAppend(a[1..], b);
    } else {
      assert a + b == b;
    }
  }

  /** `flatten()` returns the empty list. */
  lemma FlattenNoArguments()
    ensures Flatten([]) == []
  {
  }

  /** Extra wrapping does not change the result: `flatten(*xs) == flatten(xs) == flatten([xs])`,
      whichever of list or tuple does the wrapping. */
  lemma WrappingInvariant(xs: seq<Py>, outer: SeqKind, inner: SeqKind)
    ensures Flatten([Seq(outer, xs)]) == Flatten(xs)
    ensures Flatten([Seq(outer, [Seq(inner, xs)])]) == Flatten(xs)
  {
    LeavesOfOne(Seq(outer, xs));
    LeavesOfOne(Seq(inner, xs));
    LeavesOfOne(Seq(outer, [Seq(inner, xs)]));
  }

  /** A sequence with no container in it is its own list of leaves. */
  lemma {:induction false} LeavesOfLeaves(xs: seq<Py>)
    requires forall x :: x in xs ==> !IsContainer(x)
    ensures Leaves(xs) == xs
    decreases |xs|
  {
    if |xs| > 0 {
      assert xs[0] in xs;
      assert forall x :: x in xs[1..] ==> x in xs;
      LeavesOfLeaves(xs[1..]);
      assert Leaves(xs) == [xs[0]] + Leaves(xs[1..]);
      assert xs == [xs[0]] + xs[1..];
    }
  }

  /** `flatten(flatten(...)) == flatten(...)`. */
  lemma FlattenIdempotent(values: seq<Py>)
    ensures Flatten(Flatten(values)) == Flatten(values)
    ensures Flatten([Seq(List, Flatten(values))]) == Flatten(values)
  {
    LeavesOfLeaves(Leaves(values));
    WrappingInvariant(Flatten(values), List, List);
  }

  /** `y` is a leaf inside the value `x`: `x` itself when it is not a container, an int of a
      range, or a leaf inside a nested list, tuple or set. */
  ghost predicate OccursInValue(y: Py, x: Py)
    decreases x
  {
    match x
    case Seq(_, items) => OccursIn(y, items)
    case Range(start, stop, step) => y.Int? && y.i in RangeItems(start, stop, step)
    case _ => y == x
  }

  ghost predicate OccursIn(y: Py, xs: seq<Py>)
    decreases xs
  {
    exists i :: 0 <= i < |xs| && OccursInValue(y, xs[i])
  }

  lemma {:induction false} ExpandIsOccurrences(y: Py, x: Py)
    ensures y in Expand(x) <==> OccursInValue(y, x)
    decreases x
  {
    match x
    case Seq(_, items) =>
      LeavesAreOccurrences(y, items);
    case Range(start, stop, step) =>
      var ns := RangeItems(start, stop, step);
      if y in IntLeaves(ns) {
        var k :| 0 <= k < |ns| && IntLeaves(ns)[k] == y;
      }
      if y.Int? && y.i in ns {
        var k :| 0 <= k < |ns| && ns[k] == y.i;
        assert IntLeaves(ns)[k] == y;
      }
    case _ =>
  }

  /** The result holds exactly the leaves of the input. */
  lemma {:induction false} LeavesAreOccurrences(y: Py, xs: seq<Py>)
    ensures y in Leaves(xs) <==> OccursIn(y, xs)
    decreases xs
  {
    if |xs| > 0 {
      ExpandIsOccurrences(y, xs[0]);
      LeavesAreOccurrences(y, xs[1..]);
      if OccursIn(y, xs) {
        var i :| 0 <= i < |xs| && OccursInValue(y, xs[i]);
        if i > 0 {
          assert xs[1..][i - 1] == xs[i];
        }
      }
      if OccursIn(y, xs[1..]) {
        var i :| 0 <= i < |xs[1..]| && OccursInValue(y, xs[1..][i]);
        assert xs[i + 1] == xs[1..][i];
      }
    }
  }

  /** The number of leaves inside a value, counting a range by its closed-form length. */
  function ValueLeafCount(x: Py): nat
    decreases x
  {
    match x
    case Seq(_, items) => LeafCount(items)
    case Range(start, stop, step) => RangeLength(start, stop, step)
    case _ => 1
  }

  function LeafCount(xs: seq<Py>): nat
    decreases xs
  {
    if |xs| == 0 then 0 else ValueLeafCount(xs[0]) + LeafCount(xs[1..])
  }

  lemma {:induction false} LengthIsLeafCount(xs: seq<Py>)
    ensures |Leaves(xs)| == LeafCount(xs)
    decreases xs
  {
    if |xs| > 0 {
      LengthIsLeafCount(xs[1..]);
      if xs[0].Seq? {
        LengthIsLeafCount(xs[0].items);
      }
    }
  }

  /** `frequencies`: `reduce` over the values with an initially empty dict, adding one to the
      count of each value met. */
  function Frequencies<T>(values: seq<T>): (counts: map<T, nat>)
    ensures counts.Keys == set v | v in values
    ensures forall v :: v in counts ==> counts[v] == multiset(values)[v]
    decreases |values|
  {
    if |values| == 0 then map[] else
    var init := values[..|values| - 1];
    var v := values[|values| - 1];
    var counts := Frequencies(init);
    assert values == init + [v];
    counts[v := (if v in counts then counts[v] else 0) + 1]
  }

  /** The position where `x` first occurs in `values`. */
  function FirstIndex<T(==)>(values: seq<T>, x: T): (i: nat)
    requires x in values
    ensures i < |values| && values[i] == x
    ensures forall j :: 0 <= j < i ==> values[j] != x
  {
    if values[0] == x then 0 else 1 + FirstIndex(values[1..], x)
  }

  /** Appending a value does not move the first occurrence of anything already present. */
  lemma FirstIndexSnoc<T>(init: seq<T>, v: T)
    ensures forall x :: x in init ==> FirstIndex(init + [v], x) == FirstIndex(init, x)
  {
    forall x | x in init
      ensures FirstIndex(init + [v], x) == FirstIndex(init, x)
    {
      var i, k := FirstIndex(init + [v], x), FirstIndex(init, x);
      assert (init + [v])[k] == x;
      assert i <= k;
      assert init[i] == x;
    }
  }

  /** The distinct values in order of first appearance: the key order of the counting dict. */
  function Distinct<T(==)>(values: seq<T>): (keys: seq<T>)
    ensures forall i :: 0 <= i < |keys| ==> keys[i] in values
    ensures forall i :: 0 <= i < |values| ==> values[i] in keys
    ensures forall i, j :: 0 <= i < j < |keys| ==> keys[i] != keys[j]
    ensures forall i, j :: 0 <= i < j < |keys| ==> FirstIndex(values, keys[i]) < FirstIndex(values, keys[j])
    decreases |values|
  {
    if |values| == 0 then [] else
    var init := values[..|values| - 1];
    var v := values[|values| - 1];
    assert values == init + [v];
    var keys := Distinct(init);
    FirstIndexSnoc(init, v);
    if v in init then keys else
      assert FirstIndex(values, v) == |init|;
      keys + [v]
  }

  /** The first occurrence decides the position: `frequencies([2, 1, 2])` has keys `2, 1`. */
  lemma DistinctExample()
    ensures Distinct([2, 1, 2]) == [2, 1]
  {
    assert [2, 1, 2][..2] == [2, 1];
    assert [2, 1][..1] == [2];
    assert [2][..0] == [];
  }

  /** The sum of `counts[k]` over the keys `keys`, in order. */
  function SumOver<T(==)>(counts: map<T, nat>, keys: seq<T>): nat
    requires forall k :: k in keys ==> k in counts
    decreases |keys|
  {
    if |keys| == 0 then 0 else
    SumOver(counts, keys[..|keys| - 1]) + counts[keys[|keys| - 1]]
  }

  /** Updating one count changes a sum over distinct keys by the difference, if the key is
      among them, and not at all otherwise. */
  lemma {:induction false} SumOverUpdate<T>(counts: map<T, nat>, keys: seq<T>, k: T, c: nat)
    requires forall x :: x in keys ==> x in counts
    requires forall i, j :: 0 <= i < j < |keys| ==> keys[i] != keys[j]
    ensures SumOver(counts[k := c], keys) ==
            if k in keys then SumOver(counts, keys) - counts[k] + c else SumOver(counts, keys)
    decreases |keys|
  {
    if |keys| > 0 {
      var init := keys[..|keys| - 1];
      var last := keys[|keys| - 1];
      assert keys == init + [last];
      SumOverUpdate(counts, init, k, c);
    }
  }

  /** The counts add up to the number of values. */
  lemma {:induction false} CountsSumToLength<T>(values: seq<T>)
    ensures SumOver(Frequencies(values), Distinct(values)) == |values|
    decreases |values|
  {
    if |values| > 0 {
      var init := values[..|values| - 1];
      var v := values[|values| - 1];
      assert values == init + [v];
      var counts := Frequencies(init);
      var keys := Distinct(init);
      CountsSumToLength(init);
      SumOverUpdate(counts, keys, v, (if v in counts then counts[v] else 0) + 1);
      if v !in init {
        var m := counts[v := 1];
        assert (keys + [v])[..|keys|] == keys;
        assert SumOver(m, keys + [v]) == SumOver(m, keys) + 1;
      }
    }
  }

  /** The `ValueError` raised for a size below 1; it carries the size. */
  datatype ValueError = InvalidSize(size: int)

  function Padding<T>(padding: T, k: nat): (r: seq<T>)
    ensures |r| == k && forall i :: 0 <= i < k ==> r[i] == padding
  {
    seq(k, _ => padding)
  }

  function Concat<T>(rows: seq<seq<T>>): seq<T> {
    if |rows| == 0 then [] else rows[0] + Concat(rows[1..])
  }

  lemma ConcatCons<T>(row: seq<T>, rows: seq<seq<T>>)
    ensures Concat([row] + rows) == row + Concat(rows)
  {
    assert ([row] + rows)[1..] == rows;
  }

  /** How many groups of `size` hold `n` values, counting a partial last group. */
  function GroupCount(n: nat, size: nat): nat
    requires size >= 1
    decreases n
  {
    if n == 0 then 0 else if n <= size then 1 else 1 + GroupCount(n - size, size)
  }

  /** How many padding values bring `n` up to a multiple of `size`. */
  function PadLength(n: nat, size: nat): nat
    requires size >= 1
    decreases n
  {
    if n == 0 then 0 else if n <= size then size - n else PadLength(n - size, size)
  }

  /** The group count is the ceiling of `n / size`. */
  lemma {:induction false} GroupCountIsCeiling(n: nat, size: nat)
    requires size >= 1
    ensures GroupCount(n, size) == (n + size - 1) / size
    decreases n
  {
    if n == 0 {
      DivUnique(size - 1, size, 0, size - 1);
    } else if n <= size {
      DivUnique(n + size - 1, size, 1, n - 1);
    } else {
      GroupCountIsCeiling(n - size, size);
      DivShift(n - 1, size);
    }
  }

  /** The padding is what separates `n` from the next multiple of `size`. */
  lemma {:induction false} PadLengthIsRemainder(n: nat, size: nat)
    requires size >= 1
    ensures PadLength(n, size) == (size - n % size) % size
    ensures (n + PadLength(n, size)) % size == 0
    decreases n
  {
    var p := PadLength(n, size);
    if n == 0 || n == size {
      assert p == 0;
      DivUnique(n, size, n / size, 0);
      DivUnique(size, size, 1, 0);
    } else if n < size {
      assert p == size - n;
      DivUnique(n, size, 0, n);
      DivUnique(size - n, size, 0, size - n);
      DivUnique(size, size, 1, 0);
    } else {
      var m := n - size;
      assert p == PadLength(m, size);
      PadLengthIsRemainder(m, size);
      DivShift(m, size);
      DivShift(m + p, size);
    }
  }

  /** The groups `chunked` yields: consecutive runs of `size` values, the last one filled up
      with `padding`. */
  function Chunks<T>(values: seq<T>, size: nat, padding: T): (rows: seq<seq<T>>)
    requires size >= 1
    ensures |rows| == GroupCount(|values|, size)
    ensures forall i :: 0 <= i < |rows| ==> |rows[i]| == size
    decreases |values|
  {
    if |values| == 0 then
      []
    else if |values| > size then
      [values[..size]] + Chunks(values[size..], size, padding)
    else
      [values + Padding(padding, size - |values|)]
  }

  /** The groups, read one after another, are the values followed by just enough padding to
      reach a multiple of `size`. */
  lemma {:induction false} ChunksConcat<T>(values: seq<T>, size: nat, padding: T)
    requires size >= 1
    ensures Concat(Chunks(values, size, padding)) == values + Padding(padding, PadLength(|values|, size))
    decreases |values|
  {
    if |values| == 0 {
    } else if |values| > size {
      var rest := values[size..];
      ChunksConcat(rest, size, padding);
      ConcatCons(values[..size], Chunks(rest, size, padding));
      assert values[..size] + rest == values;
    } else {
      ConcatCons(values + Padding(padding, size - |values|), []);
    }
  }

  /** A run of at least `size` values starts with one full group. */
  lemma ChunksUnfold<T>(values: seq<T>, size: nat, padding: T)
    requires size >= 1 && |values| >= size
    ensures Chunks(values, size, padding) == [values[..size]] + Chunks(values[size..], size, padding)
  {
    if |values| == size {
      assert values + Padding(padding, 0) == values[..size];
    }
  }

  lemma ConsAssociates<U>(x: U, r: seq<U>, t: seq<U>)
    ensures [x] + (r + t) == ([x] + r) + t
  {
  }

  lemma ChunksAppendStep<T>(a: seq<T>, b: seq<T>, size: nat, padding: T)
    requires size >= 1 && |a| >= size
    requires Chunks(a[size..] + b, size, padding) == Chunks(a[size..], size, padding) + Chunks(b, size, padding)
    ensures Chunks(a + b, size, padding) == Chunks(a, size, padding) + Chunks(b, size, padding)
  {
    var x := a + b;
    assert x[..size] == a[..size] && x[size..] == a[size..] + b;
    ChunksUnfold(x, size, padding);
    ChunksUnfold(a, size, padding);
    ConsAssociates(a[..size], Chunks(a[size..], size, padding), Chunks(b, size, padding));
  }

  /** Chunking a whole number of groups and then the rest is chunking the lot. */
  lemma {:induction false} ChunksAppend<T>(a: seq<T>, b: seq<T>, size: nat, padding: T)
    requires size >= 1 && |a| % size == 0
    ensures Chunks(a + b, size, padding) == Chunks(a, size, padding) + Chunks(b, size, padding)
    decreases |a|
  {
    if |a| == 0 {
      assert a + b == b;
    } else {
      DivShift(|a| - size, size);
      ChunksAppend(a[size..], b, size, padding);
      ChunksAppendStep(a, b, size, padding);
    }
  }

  function Min(a: int, b: int): int {
    if a < b then a else b
  }

  /** One round of `zip_longest` over `size` references to one shared iterator standing at
      `pos0`. Each slot takes the iterator's next value unless it has been replaced by
      `repeat(padding)`; a slot whose `next` finds the iterator exhausted is replaced and
      lowers the count of active iterators, and when that count reaches zero `zip_longest`
      stops without yielding. Replaced slots always form a suffix starting at `active0`. */
  method ZipRound<T>(values: seq<T>, size: nat, padding: T, pos0: nat, active0: nat, replaced0: seq<bool>)
    returns (row: seq<T>, pos: nat, active: nat, replaced: seq<bool>, stopped: bool)
    requires 0 < active0 <= size && pos0 <= |values|
    requires active0 < size ==> pos0 == |values|
    requires replaced0 == seq(size, j => j >= active0)
    ensures stopped <==> pos0 == |values|
    ensures !stopped ==> pos == pos0 + Min(|values| - pos0, size) && active == pos - pos0
    ensures !stopped ==> row == values[pos0..pos] + Padding(padding, size - (pos - pos0))
    ensures !stopped ==> replaced == seq(size, j => j >= active)
  {
    var avail := |values| - pos0;
    row, pos, active, replaced, stopped := [], pos0, active0, replaced0, false;
    var i := 0;
    while i < size
      invariant 0 <= i <= size && |replaced| == size
      invariant forall j :: 0 <= j < size ==>
                  replaced[j] == (if j < i then j >= Min(avail, active0) else j >= active0)
      invariant pos == pos0 + Min(Min(i, active0), avail)
      invariant active == active0 - (if Min(i, active0) > avail then Min(i, active0) - avail else 0)
      invariant row == values[pos0..pos] + Padding(padding, i - (pos - pos0))
      invariant active > 0
    {
      if replaced[i] {
        row := row + [padding];
      } else if pos < |values| {
        assert values[pos0..pos + 1] == values[pos0..pos] + [values[pos]];
        row := row + [values[pos]];
        pos := pos + 1;
      } else {
        active := active - 1;
        if active == 0 {
          stopped := true;
          return;
        }
        replaced := replaced[i := true];
        row := row + [padding];
      }
      i := i + 1;
    }
  }

  /** `zip_longest(*[iter(values)] * size, fillvalue=padding)`, materialised. */
  method GroupByZipLongest<T>(values: seq<T>, size: nat, padding: T) returns (rows: seq<seq<T>>)
    requires size >= 1
    ensures rows == Chunks(values, size, padding)
  {
    var pos: nat := 0;
    var active: nat := size;
    var replaced := seq(size, j => j >= size);
    rows := [];
    while true
      invariant 0 < active <= size && pos <= |values|
      invariant replaced == seq(size, j => j >= active)
      invariant active == size ==> pos % size == 0 && rows == Chunks(values[..pos], size, padding)
      invariant active < size ==> pos == |values| && rows == Chunks(values, size, padding)
      decreases |values| - pos + active
    {
      var row, pos', active', replaced', stopped := ZipRound(values, size, padding, pos, active, replaced);
      if stopped {
        assert values[..pos] == values;
        return;
      }
      var taken := pos' - pos;
      assert values[..pos'] == values[..pos] + values[pos..pos'];
      ChunksAppend(values[..pos], values[pos..pos'], size, padding);
      if taken == size {
        assert Chunks(values[pos..pos'], size, padding) == [row];
        assert pos' % size == 0 by {
          DivShift(pos, size);
        }
      } else {
        assert pos' == |values| && values[..pos'] == values;
      }
      rows := rows + [row];
      pos, active, replaced := pos', active', replaced';
    }
  }

  /** `chunked(values, size, padding)`: `ValueError` for a size below 1, otherwise the
      `zip_longest` grouping. */
  method Chunked<T>(values: seq<T>, size: int, padding: T) returns (r: Result<seq<seq<T>>, ValueError>)
    ensures r.Failure? <==> size < 1
    ensures r.Failure? ==> r.error == InvalidSize(size)
    ensures r.Success? ==> r.value == Chunks(values, size, padding)
  {
    if size < 1 {
      return Failure(InvalidSize(size));
    }
    var rows := GroupByZipLongest(values, size, padding);
    return Success(rows);
  }

  /** Every value as a present `Option`, so that `None` can fill the last group. */
  function Present<T>(values: seq<T>): (r: seq<Option<T>>)
    ensures |r| == |values| && forall i :: 0 <= i < |r| ==> r[i] == Some(values[i])
  {
    seq(|values|, i requires 0 <= i < |values| => Some(values[i]))
  }

  /** `chunked(values, size)`: the default padding is `None`, so the groups read in order are
      the values, then just enough `None`s. */
  method ChunkedDefault<T>(values: seq<T>, size: int) returns (r: Result<seq<seq<Option<T>>>, ValueError>)
    ensures r.Failure? <==> size < 1
    ensures r.Failure? ==> r.error == InvalidSize(size)
    ensures r.Success? ==> r.value == Chunks(Present(values), size, None)
    ensures r.Success? ==> Concat(r.value) == Present(values) + Padding(None, PadLength(|values|, size))
  {
    r := Chunked(Present(values), size, None);
    if r.Success? {
      ChunksConcat(Present(values), size, None);
    }
  }
}
