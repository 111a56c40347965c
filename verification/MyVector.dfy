/** The sorting and searching vector of 7-Zip's common code. */
module MyVector {

  // ---------- orders ----------

  /** compare is negative, zero or positive as in qsort, for a total preorder. */
  ghost predicate IsPreorder<T(!new)>(compare: (T, T) -> int) {
    && (forall x, y :: compare(x, y) <= 0 <==> compare(y, x) >= 0)
    && (forall x, y, z :: compare(x, y) <= 0 && compare(y, z) <= 0 ==> compare(x, z) <= 0)
  }

  ghost predicate SortedBy<T(!new)>(s: seq<T>, compare: (T, T) -> int) {
    forall i, j :: 0 <= i < j < |s| ==> compare(s[i], s[j]) <= 0
  }

  /** less is a strict total order for which == is the equality. */
  ghost predicate IsStrictOrder<T(!new)>(less: (T, T) -> bool) {
    && (forall x :: !less(x, x))
    && (forall x, y :: x == y || less(x, y) || less(y, x))
    && (forall x, y, z :: less(x, y) && less(y, z) ==> less(x, z))
  }

  ghost predicate NonDecreasing<T(!new)>(s: seq<T>, less: (T, T) -> bool) {
    forall i, j :: 0 <= i < j < |s| ==> !less(s[j], s[i])
  }

  ghost predicate Increasing<T(!new)>(s: seq<T>, less: (T, T) -> bool) {
    forall i, j :: 0 <= i < j < |s| ==> less(s[i], s[j])
  }

  // ---------- heaps, with nodes numbered from 1 ----------

  /** Every node from lo on is at least its children, among the first size nodes; node `except` and its
      children do not count. */
  ghost predicate HeapExcept<T(!new)>(s: seq<T>, compare: (T, T) -> int, lo: nat, size: nat, except: nat)
    requires size <= |s|
  {
    forall j :: 2 <= j <= size && lo <= j / 2 && j / 2 != except && j != except ==> compare(s[j / 2 - 1], s[j - 1]) >= 0
  }

  ghost predicate Heap<T(!new)>(s: seq<T>, compare: (T, T) -> int, lo: nat, size: nat)
    requires size <= |s|
  {
    forall j :: 2 <= j <= size && lo <= j / 2 ==> compare(s[j / 2 - 1], s[j - 1]) >= 0
  }

  lemma {:induction false} RootIsLargest<T(!new)>(s: seq<T>, compare: (T, T) -> int, size: nat, j: nat)
    requires IsPreorder(compare) && size <= |s| && Heap(s, compare, 1, size) && 1 <= j <= size
    ensures compare(s[j - 1], s[0]) <= 0
    decreases j
  {
    if j == 1 {
    } else {
      RootIsLargest(s, compare, size, j / 2);
      assert compare(s[j / 2 - 1], s[j - 1]) >= 0;
    }
  }

  // ---------- sifting down ----------

  lemma ExchangeKeeps<T>(s: seq<T>, i: nat, j: nat)
    requires i < |s| && j < |s|
    ensures multiset(s[i := s[j]][j := s[i]]) == multiset(s)
  {
  }

  /** The element temp is out; node hole is free to take it or a child. */
  ghost predicate Sifting<T(!new)>(s: seq<T>, compare: (T, T) -> int, k: nat, size: nat, hole: nat, temp: T) {
    && 1 <= k <= hole <= size <= |s|
    && HeapExcept(s, compare, k, size, hole)
    && (hole > k ==> hole / 2 >= k && compare(s[hole / 2 - 1], temp) >= 0)
    && (hole > k ==> forall j :: j / 2 == hole && j <= size ==> compare(s[hole / 2 - 1], s[j - 1]) >= 0)
  }

  ghost predicate LargestChild<T(!new)>(s: seq<T>, compare: (T, T) -> int, size: nat, hole: nat, child: nat)
    requires size <= |s|
  {
    && child / 2 == hole && 2 <= child <= size
    && forall j :: j / 2 == hole && 2 <= j <= size ==> compare(s[child - 1], s[j - 1]) >= 0
  }

  ghost predicate NoLargerChild<T(!new)>(s: seq<T>, compare: (T, T) -> int, size: nat, hole: nat, x: T)
    requires size <= |s|
  {
    forall j :: j / 2 == hole && 2 <= j <= size ==> compare(x, s[j - 1]) >= 0
  }

  /** At first the hole is at the one violation. */
  lemma SiftStarts<T(!new)>(s: seq<T>, compare: (T, T) -> int, k: nat, size: nat)
    requires 1 <= k <= size <= |s| && Heap(s, compare, k + 1, size)
    ensures Sifting(s, compare, k, size, k, s[k - 1])
  {
  }

  lemma Childless<T(!new)>(s: seq<T>, compare: (T, T) -> int, size: nat, hole: nat, x: T)
    requires size <= |s| && 2 * hole > size
    ensures NoLargerChild(s, compare, size, hole, x)
  {
  }

  /** Of two children the larger one is picked. */
  lemma LargerChild<T(!new)>(s: seq<T>, compare: (T, T) -> int, size: nat, hole: nat, child: nat)
    requires IsPreorder(compare) && 1 <= hole && size <= |s|
    requires 2 * hole <= size && child <= size
    requires child == if 2 * hole < size && compare(s[2 * hole], s[2 * hole - 1]) > 0 then 2 * hole + 1 else 2 * hole
    ensures LargestChild(s, compare, size, hole, child)
  {
    forall j | j / 2 == hole && 2 <= j <= size ensures compare(s[child - 1], s[j - 1]) >= 0 {
      assert j == 2 * hole || j == 2 * hole + 1;
    }
  }

  lemma NoneLarger<T(!new)>(s: seq<T>, compare: (T, T) -> int, size: nat, hole: nat, child: nat, x: T)
    requires IsPreorder(compare) && size <= |s| && LargestChild(s, compare, size, hole, child)
    requires compare(x, s[child - 1]) >= 0
    ensures NoLargerChild(s, compare, size, hole, x)
  {
    forall j | j / 2 == hole && 2 <= j <= size ensures compare(x, s[j - 1]) >= 0 {
      assert compare(s[child - 1], s[j - 1]) >= 0;
    }
  }

  /** The larger child moves up into the hole. */
  lemma SiftStep<T(!new)>(s: seq<T>, compare: (T, T) -> int, k: nat, size: nat, hole: nat, temp: T, child: nat)
    requires IsPreorder(compare) && Sifting(s, compare, k, size, hole, temp)
    requires LargestChild(s, compare, size, hole, child) && compare(temp, s[child - 1]) < 0
    ensures Sifting(s[hole - 1 := s[child - 1]], compare, k, size, child, temp)
  {
    var r := s[hole - 1 := s[child - 1]];
    forall j | 2 <= j <= size && k <= j / 2 && j / 2 != child && j != child
      ensures compare(r[j / 2 - 1], r[j - 1]) >= 0
    {
      if j != hole && j / 2 != hole {
        assert compare(s[j / 2 - 1], s[j - 1]) >= 0;
      }
    }
    forall j | j / 2 == child && j <= size ensures compare(r[child / 2 - 1], r[j - 1]) >= 0 {
      assert compare(s[child - 1], s[j - 1]) >= 0;
    }
  }

  /** No child is larger than temp: it belongs here. */
  lemma SiftDone<T(!new)>(s: seq<T>, compare: (T, T) -> int, k: nat, size: nat, hole: nat, temp: T)
    requires IsPreorder(compare) && Sifting(s, compare, k, size, hole, temp)
    requires NoLargerChild(s, compare, size, hole, temp)
    ensures Heap(s[hole - 1 := temp], compare, k, size)
  {
    var r := s[hole - 1 := temp];
    forall j | 2 <= j <= size && k <= j / 2 ensures compare(r[j / 2 - 1], r[j - 1]) >= 0 {
      if j != hole && j / 2 != hole {
        assert compare(s[j / 2 - 1], s[j - 1]) >= 0;
      }
    }
  }

  /** Moving a child into the hole is an exchange with the element that is out. */
  lemma StepPermutes<T>(s: seq<T>, hole: nat, child: nat, temp: T)
    requires 1 <= hole <= |s| && 1 <= child <= |s| && hole != child
    ensures multiset(s[hole - 1 := s[child - 1]][child - 1 := temp]) == multiset(s[hole - 1 := temp])
  {
    var f := s[hole - 1 := temp];
    ExchangeKeeps(f, hole - 1, child - 1);
    assert f[child - 1] == s[child - 1] && f[hole - 1] == temp;
    assert f[hole - 1 := s[child - 1]] == s[hole - 1 := s[child - 1]];
  }

  lemma SamePrefix<T>(s: seq<T>, t: seq<T>, n: nat)
    requires |s| == |t| && n <= |s| && multiset(s) == multiset(t) && s[n..] == t[n..]
    ensures multiset(s[..n]) == multiset(t[..n])
  {
    assert s == s[..n] + s[n..] && t == t[..n] + t[n..];
    assert multiset(s[..n]) == multiset(s) - multiset(s[n..]);
  }

  // ---------- taking the largest off the heap ----------

  /** Elements behind the first size ones are in order, and none of the first ones is larger. */
  ghost predicate TailSorted<T(!new)>(s: seq<T>, compare: (T, T) -> int, size: nat) {
    forall i, j :: 0 <= i < j < |s| && size <= j ==> compare(s[i], s[j]) <= 0
  }

  lemma PoppedTail<T(!new)>(s: seq<T>, t: seq<T>, compare: (T, T) -> int, size: nat)
    requires IsPreorder(compare) && 2 <= size <= |s| == |t|
    requires Heap(s, compare, 1, size) && TailSorted(s, compare, size)
    requires t[size - 1] == s[0] && t[size..] == s[size..] && multiset(t[..size - 1]) == multiset(s[1..size])
    ensures TailSorted(t, compare, size - 1)
  {
    forall i, j | 0 <= i < j < |t| && size - 1 <= j ensures compare(t[i], t[j]) <= 0 {
      var m := Before(s, t, size, i);
      assert j >= size ==> t[j] == t[size..][j - size] == s[size..][j - size];
      if j == size - 1 {
        RootIsLargest(s, compare, size, m + 1);
      }
    }
  }

  /** Where an element came from: of the first size ones, or its own place behind them. */
  lemma Before<T(!new)>(s: seq<T>, t: seq<T>, size: nat, i: nat) returns (m: nat)
    requires 2 <= size <= |s| == |t| && i < |t|
    requires t[size - 1] == s[0] && t[size..] == s[size..] && multiset(t[..size - 1]) == multiset(s[1..size])
    ensures m < |s| && s[m] == t[i] && (if i < size then m < size else m == i)
  {
    if i < size - 1 {
      assert t[..size - 1][i] in multiset(s[1..size]);
      var n :| 0 <= n < size - 1 && s[1..size][n] == t[i];
      m := n + 1;
    } else if i == size - 1 {
      m := 0;
    } else {
      m := i;
      assert t[i] == t[size..][i - size] == s[size..][i - size];
    }
  }

  lemma RootSwapped<T(!new)>(s: seq<T>, compare: (T, T) -> int, size: nat)
    requires 2 <= size <= |s| && Heap(s, compare, 1, size)
    ensures var r := s[size - 1 := s[0]][0 := s[size - 1]];
      && Heap(r, compare, 2, size - 1) && multiset(r) == multiset(s)
      && r[size - 1] == s[0] && r[size..] == s[size..] && multiset(r[..size - 1]) == multiset(s[1..size])
  {
    var r := s[size - 1 := s[0]][0 := s[size - 1]];
    ExchangeKeeps(s, size - 1, 0);
    assert r[..size - 1] == [s[size - 1]] + s[1..size - 1];
    assert s[1..size] == s[1..size - 1] + [s[size - 1]];
    forall j | 2 <= j <= size - 1 && 2 <= j / 2 ensures compare(r[j / 2 - 1], r[j - 1]) >= 0 {
      assert compare(s[j / 2 - 1], s[j - 1]) >= 0;
    }
  }

  /** After the exchange at the root and any sifting among the first size - 1 elements. */
  lemma PopDone<T(!new)>(s: seq<T>, t: seq<T>, compare: (T, T) -> int, size: nat)
    requires IsPreorder(compare) && 2 <= size <= |s| == |t|
    requires Heap(s, compare, 1, size) && TailSorted(s, compare, size)
    requires var r := s[size - 1 := s[0]][0 := s[size - 1]];
      multiset(t) == multiset(r) && t[size - 1..] == r[size - 1..]
    ensures multiset(t) == multiset(s) && TailSorted(t, compare, size - 1)
  {
    var r := s[size - 1 := s[0]][0 := s[size - 1]];
    RootSwapped(s, compare, size);
    SamePrefix(t, r, size - 1);
    assert t[size - 1] == t[size - 1..][0] == r[size - 1..][0];
    assert t[size..] == t[size - 1..][1..] == r[size - 1..][1..] == r[size..];
    PoppedTail(s, t, compare, size);
  }

  class RecordVector<T(==, !new)> {
    var items: seq<T>

    constructor ()
      ensures items == []
    {
      items := [];
    }

    /** Lets the element at node k sink until no child is larger: repairs the one violation at k. */
    method SortRefDown(k: nat, size: nat, compare: (T, T) -> int)
      requires IsPreorder(compare) && 1 <= k <= size <= |items|
      requires Heap(items, compare, k + 1, size)
      modifies this
      ensures |items| == old(|items|) && Heap(items, compare, k, size)
      ensures multiset(items) == old(multiset(items)) && items[size..] == old(items[size..])
    {
      hide IsPreorder, Heap, Sifting, LargestChild, NoLargerChild;
      var temp := items[k - 1];
      var hole := k;
      ghost var start := items;
      SiftStarts(items, compare, k, size);
      assert items[k - 1 := temp] == items;
      while true
        invariant k <= hole <= size && Sifting(items, compare, k, size, hole, temp)
        invariant |items| == |start| && items[size..] == start[size..]
        invariant multiset(items[hole - 1 := temp]) == multiset(start)
        decreases size - hole
      {
        var s := 2 * hole;
        if s > size {
          Childless(items, compare, size, hole, temp);
          break;
        }
        if s < size && compare(items[s], items[s - 1]) > 0 {
          s := s + 1;
        }
        LargerChild(items, compare, size, hole, s);
        if compare(temp, items[s - 1]) >= 0 {
          NoneLarger(items, compare, size, hole, s, temp);
          break;
        }
        SiftStep(items, compare, k, size, hole, temp, s);
        StepPermutes(items, hole, s, temp);
        items := items[hole - 1 := items[s - 1]];
        hole := s;
      }
      SiftDone(items, compare, k, size, hole, temp);
      items := items[hole - 1 := temp];
    }

    /** Heapsort: an ordered permutation, for every total preorder. */
    method Sort(compare: (T, T) -> int)
      requires IsPreorder(compare)
      modifies this
      ensures SortedBy(items, compare)
      ensures multiset(items) == old(multiset(items))
    {
      var size := |items|;
      if size <= 1 {
        return;
      }
      ghost var all := multiset(items);
      var i: nat := size / 2;
      while true
        invariant 1 <= i <= size / 2 && size == |items| && multiset(items) == all
        invariant Heap(items, compare, i + 1, size)
        decreases i
      {
        SortRefDown(i, size, compare);
        i := i - 1;
        if i == 0 {
          break;
        }
      }
      while true
        invariant 2 <= size <= |items| && multiset(items) == all
        invariant Heap(items, compare, 1, size) && TailSorted(items, compare, size)
        decreases size
      {
        size := PopLargest(size, compare);
        if size <= 1 {
          break;
        }
      }
    }

    /** One pass of the second loop: the root goes to the end, and the heap shrinks by one. */
    method PopLargest(size0: nat, compare: (T, T) -> int) returns (size: nat)
      requires IsPreorder(compare) && 2 <= size0 <= |items|
      requires Heap(items, compare, 1, size0) && TailSorted(items, compare, size0)
      modifies this
      ensures size == size0 - 1 && |items| == old(|items|) && multiset(items) == old(multiset(items))
      ensures Heap(items, compare, 1, size) && TailSorted(items, compare, size)
    {
      hide IsPreorder, Heap, TailSorted;
      size := size0;
      RootSwapped(items, compare, size);
      var temp := items[size - 1];
      items := items[size - 1 := items[0]];
      size := size - 1;
      items := items[0 := temp];
      SortRefDown(1, size, compare);
      PopDone(old(items), items, compare, size0);
    }

    // ---------- sorted vectors ----------

    /** Finds item in the sorted range [left0, right0), or says that it is not there. */
    method FindInSortedRange(item: T, left0: nat, right0: nat, less: (T, T) -> bool) returns (r: int)
      requires IsStrictOrder(less) && left0 <= right0 <= |items| && NonDecreasing(items[left0..right0], less)
      ensures if r == -1 then item !in items[left0..right0] else left0 <= r < right0 && items[r] == item
    {
      var left, right := left0, right0;
      while left != right
        invariant left0 <= left <= right <= right0
        invariant Bracketed(items[left0..right0], item, left - left0, right - left0, less)
      {
        var mid := (left + right) / 2;
        assert items[left0..right0][mid - left0] == items[mid];
        if item == items[mid] {
          return mid;
        }
        Narrowed(items[left0..right0], item, left - left0, right - left0, mid - left0, less);
        if less(item, items[mid]) {
          right := mid;
        } else {
          left := mid + 1;
        }
      }
      return -1;
    }

    method FindInSorted(item: T, less: (T, T) -> bool) returns (r: int)
      requires IsStrictOrder(less) && NonDecreasing(items, less)
      ensures if r == -1 then item !in items else 0 <= r < |items| && items[r] == item
    {
      assert items[0..|items|] == items;
      r := FindInSortedRange(item, 0, |items|, less);
    }

    /** Everything before left is smaller than item, everything from right on is larger. */
    static ghost predicate Bracketed(s: seq<T>, item: T, left: nat, right: nat, less: (T, T) -> bool) {
      && left <= right <= |s|
      && (forall i :: 0 <= i < left ==> less(s[i], item))
      && (forall i :: right <= i < |s| ==> less(item, s[i]))
    }

    static lemma Narrowed(s: seq<T>, item: T, left: nat, right: nat, mid: nat, less: (T, T) -> bool)
      requires IsStrictOrder(less) && NonDecreasing(s, less) && Bracketed(s, item, left, right, less)
      requires left <= mid < right && item != s[mid]
      ensures less(item, s[mid]) ==> Bracketed(s, item, left, mid, less)
      ensures !less(item, s[mid]) ==> Bracketed(s, item, mid + 1, right, less)
    {
      forall i | mid <= i < |s| && less(item, s[mid]) ensures less(item, s[i]) {
        assert i == mid || !less(s[i], s[mid]);
      }
      forall i | 0 <= i <= mid && !less(item, s[mid]) ensures less(s[i], item) {
        assert i == mid || !less(s[mid], s[i]);
      }
    }

    method Insert(index: nat, item: T)
      requires index <= |items|
      modifies this
      ensures items == old(items)[..index] + [item] + old(items)[index..]
    {
      items := items[..index] + [item] + items[index..];
    }

    /** Adds item unless it is there; the vector stays strictly increasing. */
    method AddToUniqueSorted(item: T, less: (T, T) -> bool) returns (r: nat)
      requires IsStrictOrder(less) && Increasing(items, less)
      modifies this
      ensures Increasing(items, less) && r < |items| && items[r] == item
      ensures if item in old(items) then items == old(items)
              else r <= |old(items)| && items == old(items)[..r] + [item] + old(items)[r..]
    {
      IncreasingSorted(items, less);
      var left, right := 0, |items|;
      while left != right
        invariant 0 <= left <= right <= |items| && items == old(items) && Bracketed(items, item, left, right, less)
      {
        var mid := (left + right) / 2;
        if item == items[mid] {
          return mid;
        }
        Narrowed(items, item, left, right, mid, less);
        if less(item, items[mid]) {
          right := mid;
        } else {
          left := mid + 1;
        }
      }
      Insert(right, item);
      return right;
    }

    static lemma IncreasingSorted(s: seq<T>, less: (T, T) -> bool)
      requires IsStrictOrder(less) && Increasing(s, less)
      ensures NonDecreasing(s, less)
    {
    }

    /** At index r an item keeps the order. */
    static ghost predicate FitsAt(s: seq<T>, item: T, r: nat, less: (T, T) -> bool) {
      && r <= |s|
      && (forall i :: 0 <= i < r ==> !less(item, s[i]))
      && (forall i :: r <= i < |s| ==> !less(s[i], item))
    }

    static lemma BracketedFits(s: seq<T>, item: T, r: nat, less: (T, T) -> bool)
      requires IsStrictOrder(less) && Bracketed(s, item, r, r, less)
      ensures FitsAt(s, item, r, less)
    {
    }

    static lemma BehindEqual(s: seq<T>, item: T, mid: nat, less: (T, T) -> bool)
      requires IsStrictOrder(less) && NonDecreasing(s, less) && mid < |s| && s[mid] == item
      ensures FitsAt(s, item, mid + 1, less)
    {
    }

    static lemma InsertedInOrder(s: seq<T>, item: T, r: nat, less: (T, T) -> bool)
      requires NonDecreasing(s, less) && FitsAt(s, item, r, less)
      ensures NonDecreasing(s[..r] + [item] + s[r..], less)
    {
      var t := s[..r] + [item] + s[r..];
      forall i, j | 0 <= i < j < |t| ensures !less(t[j], t[i]) {
        var i', j' := if i < r then i else i - 1, if j < r then j else j - 1;
        assert i != r ==> t[i] == s[i'];
        assert j != r ==> t[j] == s[j'];
      }
    }

    /** Adds item behind an equal one, if the search meets one; the vector stays sorted. */
    method AddToSorted(item: T, less: (T, T) -> bool) returns (r: nat)
      requires IsStrictOrder(less) && NonDecreasing(items, less)
      modifies this
      ensures r <= |old(items)| && items == old(items)[..r] + [item] + old(items)[r..]
      ensures NonDecreasing(items, less)
    {
      hide IsStrictOrder, NonDecreasing;
      var left, right := 0, |items|;
      while left != right
        invariant 0 <= left <= right <= |items| && items == old(items) && Bracketed(items, item, left, right, less)
      {
        var mid := (left + right) / 2;
        if item == items[mid] {
          right := mid + 1;
          BehindEqual(items, item, mid, less);
          break;
        }
        Narrowed(items, item, left, right, mid, less);
        if less(item, items[mid]) {
          right := mid;
        } else {
          left := mid + 1;
        }
      }
      if left == right {
        BracketedFits(items, item, right, less);
      }
      InsertedInOrder(items, item, right, less);
      Insert(right, item);
      return right;
    }
  }
}
