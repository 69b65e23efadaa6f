/** A stable sort on sequences, ordered by a numeric key read off each element
    and a direction. The comparator is the one both programs use: the sign of
    the key difference, negated for descending order, with a key that is not
    a number (`None`, JavaScript's `NaN`) comparing as equal to everything.

    `Array.prototype.sort` and Python's `list.sort` are both stable; for keys
    that are all numbers the stable sorted order is unique (`SortIsUnique`),
    so the insertion sort here produces exactly their result. */
module StableSort {
  import opened Wrappers

  datatype Direction = Ascending | Descending

  /** `a < b ? -1 : a > b ? 1 : 0` on two extracted keys. */
  function Compare(a: Option<real>, b: Option<real>): (c: int)
    ensures -1 <= c <= 1
    ensures a.None? || b.None? ==> c == 0
  {
    if a.Some? && b.Some? && a.value < b.value then -1
    else if a.Some? && b.Some? && a.value > b.value then 1
    else 0
  }

  /** The comparator handed to the sort: `Compare`, negated for descending
      order. */
  function Cmp<T>(key: T -> Option<real>, dir: Direction, x: T, y: T): (r: int)
    ensures -1 <= r <= 1
    ensures (key(x).None? || key(y).None?) ==> r == 0
  {
    var c := Compare(key(x), key(y));
    if dir == Descending then -c else c
  }

  /** The order a sorted sequence respects, in terms of the key values
      themselves. */
  predicate KeyLe(dir: Direction, a: real, b: real) {
    if dir == Ascending then a <= b else b <= a
  }

  /** On numeric keys the comparator says "not after" exactly when the keys
      are in order, and "before" exactly when they are strictly in order. */
  lemma CmpMeaning<T>(key: T -> Option<real>, dir: Direction, x: T, y: T)
    requires key(x).Some? && key(y).Some?
    ensures Cmp(key, dir, x, y) <= 0 <==> KeyLe(dir, key(x).value, key(y).value)
    ensures Cmp(key, dir, x, y) < 0 <==> !KeyLe(dir, key(y).value, key(x).value)
    ensures Cmp(key, Descending, x, y) == -Cmp(key, Ascending, x, y)
  {
  }

  ghost predicate AllKeysDefined<T>(s: seq<T>, key: T -> Option<real>) {
    forall i :: 0 <= i < |s| ==> key(s[i]).Some?
  }

  ghost predicate Sorted<T>(s: seq<T>, key: T -> Option<real>, dir: Direction) {
    forall i, j :: 0 <= i < j < |s| ==> Cmp(key, dir, s[i], s[j]) <= 0
  }

  /** The elements of `s` whose key is `k`, in their order in `s`. A sort is
      stable when it leaves every such subsequence unchanged. */
  function Select<T(==)>(s: seq<T>, key: T -> Option<real>, k: Option<real>): (r: seq<T>)
    ensures |r| <= |s|
  {
    if s == [] then []
    else (if key(s[0]) == k then [s[0]] else []) + Select(s[1..], key, k)
  }

  /** `Select` keeps exactly the elements whose key is `k`. */
  lemma {:induction false} SelectMembers<T>(s: seq<T>, key: T -> Option<real>, k: Option<real>)
    ensures forall i :: 0 <= i < |Select(s, key, k)| ==> Select(s, key, k)[i] in s && key(Select(s, key, k)[i]) == k
    ensures forall i :: 0 <= i < |s| && key(s[i]) == k ==> s[i] in Select(s, key, k)
  {
    if s != [] {
      SelectMembers(s[1..], key, k);
      var head := if key(s[0]) == k then [s[0]] else [];
      var rest := Select(s[1..], key, k);
      assert Select(s, key, k) == head + rest;
      forall i | 0 <= i < |s| && key(s[i]) == k
        ensures s[i] in Select(s, key, k)
      {
        if i > 0 {
          assert s[i] == s[1..][i - 1];
          assert s[i] in rest;
        }
      }
      forall i | 0 <= i < |head + rest|
        ensures (head + rest)[i] in s && key((head + rest)[i]) == k
      {
        if i >= |head| {
          assert (head + rest)[i] == rest[i - |head|];
          assert rest[i - |head|] in s[1..];
        }
      }
    }
  }

  lemma {:induction false} SelectAppend<T>(a: seq<T>, b: seq<T>, key: T -> Option<real>, k: Option<real>)
    ensures Select(a + b, key, k) == Select(a, key, k) + Select(b, key, k)
  {
    if a == [] {
      assert a + b == b;
    } else {
      assert (a + b)[0] == a[0];
      assert (a + b)[1..] == a[1..] + b;
      SelectAppend(a[1..], b, key, k);
      var head := if key(a[0]) == k then [a[0]] else [];
      assert Select(a + b, key, k) == head + Select(a[1..] + b, key, k);
      AppendAssoc(head, Select(a[1..], key, k), Select(b, key, k));
    }
  }

  /** Inserts `x` into `s` before the first element it compares below, so
      after every element it does not. */
  function Insert<T(==)>(x: T, s: seq<T>, key: T -> Option<real>, dir: Direction): (r: seq<T>)
    ensures multiset(r) == multiset(s) + multiset{x}
  {
    if s == [] then [x]
    else if Cmp(key, dir, x, s[0]) < 0 then [x] + s
    else
      assert s == [s[0]] + s[1..];
      [s[0]] + Insert(x, s[1..], key, dir)
  }

  /** Inserting a numeric-keyed element into a sorted sequence keeps it
      sorted. */
  lemma {:induction false} InsertSorted<T>(x: T, s: seq<T>, key: T -> Option<real>, dir: Direction)
    requires Sorted(s, key, dir) && AllKeysDefined(s, key) && key(x).Some?
    ensures Sorted(Insert(x, s, key, dir), key, dir)
  {
    if s != [] {
      var r := Insert(x, s, key, dir);
      if Cmp(key, dir, x, s[0]) < 0 {
        forall j | 1 <= j < |r|
          ensures Cmp(key, dir, r[0], r[j]) <= 0
        {
          assert r[j] == s[j - 1];
          if j > 1 {
            assert Cmp(key, dir, s[0], s[j - 1]) <= 0;
          }
        }
      } else {
        var t := Insert(x, s[1..], key, dir);
        InsertSorted(x, s[1..], key, dir);
        forall j | 0 <= j < |t|
          ensures Cmp(key, dir, s[0], t[j]) <= 0
        {
          assert t[j] in multiset(t);
          if t[j] != x {
            assert t[j] in multiset(s[1..]);
            var i :| 0 <= i < |s[1..]| && s[1..][i] == t[j];
            assert s[1 + i] == t[j];
          }
        }
        assert r == [s[0]] + t;
      }
    }
  }

  lemma AppendAssoc<T>(a: seq<T>, b: seq<T>, c: seq<T>)
    ensures a + (b + c) == (a + b) + c
  {
  }

  lemma SortedTail<T>(s: seq<T>, key: T -> Option<real>, dir: Direction)
    requires s != [] && Sorted(s, key, dir) && AllKeysDefined(s, key)
    ensures Sorted(s[1..], key, dir) && AllKeysDefined(s[1..], key)
  {
    forall i, j | 0 <= i < j < |s[1..]|
      ensures Cmp(key, dir, s[1..][i], s[1..][j]) <= 0
    {
      assert s[1..][i] == s[i + 1] && s[1..][j] == s[j + 1];
    }
  }

  /** An element that compares before the head of a sorted sequence compares
      before all of it, so no element there shares its key. */
  lemma BeforeHeadBeforeAll<T>(x: T, s: seq<T>, key: T -> Option<real>, dir: Direction)
    requires Sorted(s, key, dir) && AllKeysDefined(s, key) && key(x).Some?
    requires s != [] && Cmp(key, dir, x, s[0]) < 0
    ensures forall i :: 0 <= i < |s| ==> key(s[i]) != key(x)
  {
    forall i | 0 <= i < |s|
      ensures key(s[i]) != key(x)
    {
      CmpMeaning(key, dir, x, s[0]);
      if i > 0 {
        assert Cmp(key, dir, s[0], s[i]) <= 0;
        CmpMeaning(key, dir, s[0], s[i]);
      }
    }
  }

  lemma SelectNone<T>(s: seq<T>, key: T -> Option<real>, k: Option<real>)
    requires forall i :: 0 <= i < |s| ==> key(s[i]) != k
    ensures Select(s, key, k) == []
  {
    SelectMembers(s, key, k);
  }

  /** Inserting into a sorted sequence appends `x` to the subsequence of its
      key and leaves the others alone. */
  lemma {:induction false} SelectInsert<T>(x: T, s: seq<T>, key: T -> Option<real>, dir: Direction, k: Option<real>)
    requires Sorted(s, key, dir) && AllKeysDefined(s, key) && key(x).Some?
    ensures Select(Insert(x, s, key, dir), key, k)
         == Select(s, key, k) + (if key(x) == k then [x] else [])
  {
    var tail := if key(x) == k then [x] else [];
    if s == [] {
      assert Select([x], key, k) == tail + Select([], key, k);
    } else if Cmp(key, dir, x, s[0]) < 0 {
      assert Insert(x, s, key, dir) == [x] + s;
      assert ([x] + s)[1..] == s;
      assert Select([x] + s, key, k) == tail + Select(s, key, k);
      if key(x) == k {
        BeforeHeadBeforeAll(x, s, key, dir);
        SelectNone(s, key, k);
      }
    } else {
      var t := Insert(x, s[1..], key, dir);
      var head := if key(s[0]) == k then [s[0]] else [];
      assert Insert(x, s, key, dir) == [s[0]] + t;
      assert ([s[0]] + t)[1..] == t;
      SortedTail(s, key, dir);
      SelectInsert(x, s[1..], key, dir, k);
      var rest := Select(s[1..], key, k);
      assert Select(t, key, k) == rest + tail;
      assert Select([s[0]] + t, key, k) == head + (rest + tail);
      AppendAssoc(head, rest, tail);
      assert Select(s, key, k) == head + rest;
    }
  }

  /** Insertion sort: each element is inserted, in input order, into the
      sorted prefix before it. The result is a permutation of the input; when
      every key is a number it is sorted, and stable. */
  function Sort<T(==)>(s: seq<T>, key: T -> Option<real>, dir: Direction): (r: seq<T>)
    ensures multiset(r) == multiset(s) && |r| == |s|
    ensures AllKeysDefined(s, key) ==> Sorted(r, key, dir) && AllKeysDefined(r, key)
    ensures AllKeysDefined(s, key) ==> forall k :: Select(r, key, k) == Select(s, key, k)
  {
    if s == [] then []
    else
      var init := s[..|s| - 1];
      var last := s[|s| - 1];
      assert s == init + [last];
      var p := Sort(init, key, dir);
      var r := Insert(last, p, key, dir);
      assert |r| == |multiset(r)|;
      InsertStep(init, last, p, key, dir);
      r
  }

  /** One step of the insertion sort: inserting the last element into the
      sorted form of the others sorts the whole, stably. */
  lemma InsertStep<T>(init: seq<T>, last: T, p: seq<T>, key: T -> Option<real>, dir: Direction)
    requires AllKeysDefined(init, key) ==> Sorted(p, key, dir) && AllKeysDefined(p, key)
    requires AllKeysDefined(init, key) ==> forall k :: Select(p, key, k) == Select(init, key, k)
    requires multiset(Insert(last, p, key, dir)) == multiset(init + [last])
    ensures AllKeysDefined(init + [last], key) ==>
      Sorted(Insert(last, p, key, dir), key, dir) && AllKeysDefined(Insert(last, p, key, dir), key)
    ensures AllKeysDefined(init + [last], key) ==>
      forall k :: Select(Insert(last, p, key, dir), key, k) == Select(init + [last], key, k)
  {
    if AllKeysDefined(init + [last], key) {
      KeysOfParts(init, last, key);
      InsertStepSorted(init + [last], last, p, key, dir);
      InsertStepStable(init, last, p, key, dir);
    }
  }

  /** The keys of a sequence ending in `last` are defined on its parts. */
  lemma KeysOfParts<T>(init: seq<T>, last: T, key: T -> Option<real>)
    requires AllKeysDefined(init + [last], key)
    ensures AllKeysDefined(init, key) && key(last).Some?
  {
    var s := init + [last];
    assert s[|s| - 1] == last;
    forall i | 0 <= i < |init|
      ensures key(init[i]).Some?
    {
      assert init[i] == s[i];
    }
  }

  /** Inserting the last element into the sorted rest gives a sorted
      sequence whose keys are all defined. */
  lemma InsertStepSorted<T>(s: seq<T>, last: T, p: seq<T>, key: T -> Option<real>, dir: Direction)
    requires AllKeysDefined(s, key) && key(last).Some?
    requires Sorted(p, key, dir) && AllKeysDefined(p, key)
    requires multiset(Insert(last, p, key, dir)) == multiset(s)
    ensures Sorted(Insert(last, p, key, dir), key, dir) && AllKeysDefined(Insert(last, p, key, dir), key)
  {
    var r := Insert(last, p, key, dir);
    InsertSorted(last, p, key, dir);
    forall i | 0 <= i < |r|
      ensures key(r[i]).Some?
    {
      assert r[i] in multiset(r);
      assert r[i] in multiset(s);
    }
  }

  /** Inserting the last element keeps every key's subsequence in input
      order. */
  lemma InsertStepStable<T>(init: seq<T>, last: T, p: seq<T>, key: T -> Option<real>, dir: Direction)
    requires key(last).Some?
    requires Sorted(p, key, dir) && AllKeysDefined(p, key)
    requires forall k :: Select(p, key, k) == Select(init, key, k)
    ensures forall k :: Select(Insert(last, p, key, dir), key, k) == Select(init + [last], key, k)
  {
    forall k
      ensures Select(Insert(last, p, key, dir), key, k) == Select(init + [last], key, k)
    {
      SelectInsert(last, p, key, dir, k);
      SelectAppend(init, [last], key, k);
    }
  }

  /** A sorted sequence is determined by its per-key subsequences: two sorted
      sequences with numeric keys that agree on every key's subsequence are
      equal. */
  lemma {:induction false} SortedBySelectUnique<T>(a: seq<T>, b: seq<T>, key: T -> Option<real>, dir: Direction)
    requires AllKeysDefined(a, key) && AllKeysDefined(b, key)
    requires Sorted(a, key, dir) && Sorted(b, key, dir)
    requires forall k :: Select(a, key, k) == Select(b, key, k)
    ensures a == b
  {
    if a == [] || b == [] {
      if a != [] {
        SelectMembers(a, key, key(a[0]));
      }
      if b != [] {
        SelectMembers(b, key, key(b[0]));
      }
    } else {
      HeadKeyBound(a, b, key, dir);
      HeadKeyBound(b, a, key, dir);
      var k0 := key(a[0]);
      assert k0 == key(b[0]);
      var sa, sb := Select(a, key, k0), Select(b, key, k0);
      assert sa == [a[0]] + Select(a[1..], key, k0);
      assert sb == [b[0]] + Select(b[1..], key, k0);
      assert a[0] == sa[0] == sb[0] == b[0];
      forall k
        ensures Select(a[1..], key, k) == Select(b[1..], key, k)
      {
        var h := if key(a[0]) == k then [a[0]] else [];
        var ta, tb := Select(a[1..], key, k), Select(b[1..], key, k);
        assert Select(a, key, k) == h + ta;
        assert Select(b, key, k) == h + tb;
        assert ta == (h + ta)[|h|..];
        assert tb == (h + tb)[|h|..];
      }
      SortedTail(a, key, dir);
      SortedTail(b, key, dir);
      SortedBySelectUnique(a[1..], b[1..], key, dir);
      assert a == [a[0]] + a[1..] && b == [b[0]] + b[1..];
    }
  }

  /** The head of a sorted sequence has the smallest key of every sequence
      with the same per-key subsequences. */
  lemma HeadKeyBound<T>(a: seq<T>, b: seq<T>, key: T -> Option<real>, dir: Direction)
    requires a != [] && b != []
    requires AllKeysDefined(a, key) && AllKeysDefined(b, key) && Sorted(a, key, dir)
    requires forall k :: Select(a, key, k) == Select(b, key, k)
    ensures KeyLe(dir, key(a[0]).value, key(b[0]).value)
  {
    var k1 := key(b[0]);
    SelectMembers(b, key, k1);
    SelectMembers(a, key, k1);
    assert b[0] in Select(b, key, k1);
    assert b[0] in Select(a, key, k1);
    var i :| 0 <= i < |a| && a[i] == b[0];
    if i > 0 {
      assert Cmp(key, dir, a[0], a[i]) <= 0;
      CmpMeaning(key, dir, a[0], a[i]);
    }
  }

  /** Any stable sort gives the same result: a sorted sequence that keeps
      every key's subsequence of `s` is `Sort(s)`. */
  lemma SortIsUnique<T>(s: seq<T>, b: seq<T>, key: T -> Option<real>, dir: Direction)
    requires AllKeysDefined(s, key)
    requires Sorted(b, key, dir)
    requires forall k :: Select(b, key, k) == Select(s, key, k)
    ensures b == Sort(s, key, dir)
  {
    forall i | 0 <= i < |b|
      ensures key(b[i]).Some?
    {
      SelectMembers(b, key, key(b[i]));
      SelectMembers(s, key, key(b[i]));
      assert b[i] in Select(b, key, key(b[i]));
    }
    SortedBySelectUnique(b, Sort(s, key, dir), key, dir);
  }

  function Reverse<T>(s: seq<T>): (r: seq<T>)
    ensures |r| == |s|
    ensures forall i :: 0 <= i < |s| ==> r[i] == s[|s| - 1 - i]
  {
    if s == [] then [] else Reverse(s[1..]) + [s[0]]
  }

  lemma {:induction false} ReverseAppend<T>(a: seq<T>, b: seq<T>)
    ensures Reverse(a + b) == Reverse(b) + Reverse(a)
  {
    assert Reverse(a + b) == Reverse(b) + Reverse(a) by {
      assert |Reverse(a + b)| == |Reverse(b) + Reverse(a)|;
      forall i | 0 <= i < |a| + |b|
        ensures Reverse(a + b)[i] == (Reverse(b) + Reverse(a))[i]
      {
        if i < |b| {
          assert (a + b)[|a| + |b| - 1 - i] == b[|b| - 1 - i];
        } else {
          assert (a + b)[|a| + |b| - 1 - i] == a[|a| - 1 - (i - |b|)];
        }
      }
    }
  }

  lemma {:induction false} SelectReverse<T>(s: seq<T>, key: T -> Option<real>, k: Option<real>)
    ensures Select(Reverse(s), key, k) == Reverse(Select(s, key, k))
  {
    if s != [] {
      var head := if key(s[0]) == k then [s[0]] else [];
      SelectReverse(s[1..], key, k);
      SelectAppend(Reverse(s[1..]), [s[0]], key, k);
      assert Select([s[0]], key, k) == head;
      ReverseAppend(head, Select(s[1..], key, k));
      assert Reverse(head) == head;
    }
  }

  /** No two positions of `s` share a key. */
  ghost predicate DistinctKeys<T>(s: seq<T>, key: T -> Option<real>) {
    forall i, j :: 0 <= i < j < |s| ==> key(s[i]) != key(s[j])
  }

  lemma {:induction false} DistinctKeysSelectSmall<T>(s: seq<T>, key: T -> Option<real>, k: Option<real>)
    requires DistinctKeys(s, key)
    ensures |Select(s, key, k)| <= 1
  {
    if s != [] {
      assert DistinctKeys(s[1..], key) by {
        forall i, j | 0 <= i < j < |s[1..]|
          ensures key(s[1..][i]) != key(s[1..][j])
        {
          assert s[1..][i] == s[i + 1] && s[1..][j] == s[j + 1];
        }
      }
      DistinctKeysSelectSmall(s[1..], key, k);
      if key(s[0]) == k {
        forall i | 0 <= i < |s[1..]|
          ensures key(s[1..][i]) != k
        {
          assert s[1..][i] == s[i + 1];
        }
        SelectNone(s[1..], key, k);
      }
    }
  }

  /** With distinct numeric keys, sorting descending gives the ascending
      order reversed. (With repeated keys it does not: equal keys keep their
      input order in both directions.) */
  lemma DescendingReversesAscending<T>(s: seq<T>, key: T -> Option<real>)
    requires AllKeysDefined(s, key) && DistinctKeys(s, key)
    ensures Sort(s, key, Descending) == Reverse(Sort(s, key, Ascending))
  {
    var a := Sort(s, key, Ascending);
    var ra := Reverse(a);
    assert Sorted(ra, key, Descending) by {
      forall i, j | 0 <= i < j < |ra|
        ensures Cmp(key, Descending, ra[i], ra[j]) <= 0
      {
        assert Cmp(key, Ascending, a[|a| - 1 - j], a[|a| - 1 - i]) <= 0;
      }
    }
    forall k
      ensures Select(ra, key, k) == Select(s, key, k)
    {
      SelectReverse(a, key, k);
      DistinctKeysSelectSmall(s, key, k);
      var sel := Select(a, key, k);
      assert |sel| <= 1;
      assert Reverse(sel) == sel;
    }
    SortIsUnique(s, ra, key, Descending);
  }
}
