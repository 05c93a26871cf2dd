/** Insertion sort by a four-part key, compared lexicographically. With injective keys two sequences of
    the same elements sort to the same sequence, so whatever is computed from the sorted one does not
    depend on the order the elements came in. The graph modules use it wherever the program sorts with a
    comparison chain. */
module Sorting {
  datatype Key = Key(a: nat, b: nat, c: nat, d: nat)

  predicate Less(k: Key, l: Key) {
    k.a < l.a || (k.a == l.a && (k.b < l.b || (k.b == l.b && (k.c < l.c || (k.c == l.c && k.d < l.d)))))
  }

  ghost predicate Distinct<T(!new)>(s: seq<T>) {
    forall i, j :: 0 <= i < j < |s| ==> s[i] != s[j]
  }

  ghost predicate Injective<T(!new)>(key: T -> Key) {
    forall x, y :: key(x) == key(y) ==> x == y
  }

  /** Strictly ascending keys. */
  ghost predicate Ascending<T(!new)>(s: seq<T>, key: T -> Key) {
    forall i, j :: 0 <= i < j < |s| ==> Less(key(s[i]), key(s[j]))
  }

  function Insert<T>(x: T, s: seq<T>, key: T -> Key): seq<T> {
    if s == [] then [x]
    else if Less(key(x), key(s[0])) then [x] + s
    else [s[0]] + Insert(x, s[1..], key)
  }

  function Sort<T>(s: seq<T>, key: T -> Key): seq<T> {
    if s == [] then [] else Insert(s[0], Sort(s[1..], key), key)
  }

  lemma {:induction false} InsertKeeps<T(!new)>(x: T, s: seq<T>, key: T -> Key)
    ensures |Insert(x, s, key)| == |s| + 1
    ensures forall y :: y in Insert(x, s, key) <==> y == x || y in s
  {
    if s != [] {
      InsertKeeps(x, s[1..], key);
      assert s == [s[0]] + s[1..];
    }
  }

  lemma {:induction false} InsertAscends<T(!new)>(x: T, s: seq<T>, key: T -> Key)
    requires Injective(key) && Ascending(s, key) && x !in s
    ensures Ascending(Insert(x, s, key), key)
  {
    if s != [] {
      InsertAscends(x, s[1..], key);
      InsertKeeps(x, s[1..], key);
      var rest := Insert(x, s[1..], key);
      if !Less(key(x), key(s[0])) {
        assert x != s[0] && Less(key(s[0]), key(x));
        forall i | 0 <= i < |rest|
          ensures Less(key(s[0]), key(rest[i]))
        {
          assert rest[i] in rest;
          if rest[i] != x {
            var j :| 0 <= j < |s[1..]| && s[1..][j] == rest[i];
            assert s[j + 1] == rest[i];
          }
        }
      }
    }
  }

  /** Sorting keeps the elements, and distinct elements come out in strictly ascending order. */
  lemma {:induction false} SortSorts<T(!new)>(s: seq<T>, key: T -> Key)
    requires Injective(key)
    ensures |Sort(s, key)| == |s|
    ensures forall y :: y in Sort(s, key) <==> y in s
    ensures Distinct(s) ==> Ascending(Sort(s, key), key)
  {
    if s != [] {
      SortSorts(s[1..], key);
      InsertKeeps(s[0], Sort(s[1..], key), key);
      assert s == [s[0]] + s[1..];
      if Distinct(s) {
        assert Distinct(s[1..]) && s[0] !in s[1..];
        InsertAscends(s[0], Sort(s[1..], key), key);
      }
    }
  }

  lemma AscendingIsDistinct<T(!new)>(s: seq<T>, key: T -> Key)
    requires Ascending(s, key)
    ensures Distinct(s)
  {
    forall i, j | 0 <= i < j < |s|
      ensures s[i] != s[j]
    {
      assert Less(key(s[i]), key(s[j]));
    }
  }

  lemma InTail<T(!new)>(s: seq<T>, y: T)
    requires s != [] && Distinct(s)
    ensures y in s[1..] <==> y in s && y != s[0]
  {
    assert s == [s[0]] + s[1..];
    if y in s[1..] {
      var i :| 0 <= i < |s[1..]| && s[1..][i] == y;
      assert s[i + 1] == y;
    }
  }

  lemma FirstIsLeast<T(!new)>(s: seq<T>, x: T, key: T -> Key)
    requires Ascending(s, key) && x in s
    ensures s[0] == x || Less(key(s[0]), key(x))
  {
  }

  /** Two ascending sequences of the same elements are the same sequence. */
  lemma {:induction false} AscendingIsUnique<T(!new)>(s: seq<T>, t: seq<T>, key: T -> Key)
    requires Ascending(s, key) && Ascending(t, key)
    requires forall y :: y in s <==> y in t
    ensures s == t
  {
    if s == [] {
      assert forall i :: 0 <= i < |t| ==> t[i] in s;
    } else {
      assert s[0] in t;
      assert t[0] in s;
      FirstIsLeast(t, s[0], key);
      FirstIsLeast(s, t[0], key);
      AscendingIsDistinct(s, key);
      AscendingIsDistinct(t, key);
      forall y
        ensures y in s[1..] <==> y in t[1..]
      {
        InTail(s, y);
        InTail(t, y);
      }
      AscendingIsUnique(s[1..], t[1..], key);
    }
  }

  /** Sorting is independent of the order its input comes in. */
  lemma SortIsCanonical<T(!new)>(s: seq<T>, t: seq<T>, key: T -> Key)
    requires Injective(key) && Distinct(s) && Distinct(t)
    requires forall y :: y in s <==> y in t
    ensures Sort(s, key) == Sort(t, key)
  {
    SortSorts(s, key);
    SortSorts(t, key);
    AscendingIsUnique(Sort(s, key), Sort(t, key), key);
  }
}
