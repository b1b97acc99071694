/** Lists kept in order by pushing at the end and stably sorting, and searched for the
    first match. Both the MMIO region list and the network policy list are kept this way. */
module StableOrder {
  import opened Machine

  /** `x` placed after every element whose key is not greater, in a sorted list. */
  function Insert<T>(s: seq<T>, x: T, key: T -> int): seq<T> {
    if s == [] || key(s[|s| - 1]) <= key(x) then s + [x]
    else Insert(s[..|s| - 1], x, key) + [s[|s| - 1]]
  }

  /** The stable sort by ascending key. */
  function Sort<T>(s: seq<T>, key: T -> int): seq<T> {
    if s == [] then [] else Insert(Sort(s[..|s| - 1], key), s[|s| - 1], key)
  }

  ghost predicate Sorted<T>(s: seq<T>, key: T -> int) {
    forall i, j :: 0 <= i < j < |s| ==> key(s[i]) <= key(s[j])
  }

  /** The elements with key `k`, in list order. */
  function WithKey<T>(s: seq<T>, key: T -> int, k: int): seq<T> {
    if s == [] then []
    else WithKey(s[..|s| - 1], key, k) + if key(s[|s| - 1]) == k then [s[|s| - 1]] else []
  }

  /** `t` is a stable sort of `s`: sorted, and equal keys keep their order. */
  ghost predicate IsStableSort<T>(s: seq<T>, t: seq<T>, key: T -> int) {
    Sorted(t, key) && forall k :: WithKey(t, key, k) == WithKey(s, key, k)
  }

  lemma {:induction false} InsertKeepsBound<T>(s: seq<T>, x: T, key: T -> int, bound: int)
    requires key(x) <= bound && forall i :: 0 <= i < |s| ==> key(s[i]) <= bound
    ensures forall i :: 0 <= i < |Insert(s, x, key)| ==> key(Insert(s, x, key)[i]) <= bound
  {
    if s != [] && key(s[|s| - 1]) > key(x) {
      InsertKeepsBound(s[..|s| - 1], x, key, bound);
    }
  }

  lemma {:induction false} InsertKeepsOrder<T>(s: seq<T>, x: T, key: T -> int)
    requires Sorted(s, key)
    ensures Sorted(Insert(s, x, key), key)
  {
    if s != [] && key(s[|s| - 1]) > key(x) {
      var init, last := s[..|s| - 1], s[|s| - 1];
      InsertKeepsOrder(init, x, key);
      InsertKeepsBound(init, x, key, key(last));
    }
  }

  lemma {:induction false} InsertKeepsKeys<T>(s: seq<T>, x: T, key: T -> int, k: int)
    requires Sorted(s, key)
    ensures WithKey(Insert(s, x, key), key, k) == WithKey(s + [x], key, k)
  {
    assert (s + [x])[..|s|] == s;
    if s != [] && key(s[|s| - 1]) > key(x) {
      var init, last := s[..|s| - 1], s[|s| - 1];
      InsertKeepsKeys(init, x, key, k);
      assert (init + [x])[..|init|] == init;
      assert (Insert(init, x, key) + [last])[..|Insert(init, x, key)|] == Insert(init, x, key);
      if key(x) == k {
        NoneWithKey([last], key, k);
      }
    }
  }

  lemma NoneWithKey<T>(s: seq<T>, key: T -> int, k: int)
    requires forall x :: x in s ==> key(x) != k
    ensures WithKey(s, key, k) == []
  {
  }

  lemma {:induction false} SortIsStable<T>(s: seq<T>, key: T -> int)
    ensures IsStableSort(s, Sort(s, key), key)
  {
    if s != [] {
      var init, last := s[..|s| - 1], s[|s| - 1];
      SortIsStable(init, key);
      InsertKeepsOrder(Sort(init, key), last, key);
      forall k
        ensures WithKey(Sort(s, key), key, k) == WithKey(s, key, k)
      {
        InsertKeepsKeys(Sort(init, key), last, key, k);
        assert (Sort(init, key) + [last])[..|Sort(init, key)|] == Sort(init, key);
      }
    }
  }

  lemma {:induction false} InsertPermutes<T>(s: seq<T>, x: T, key: T -> int)
    ensures multiset(Insert(s, x, key)) == multiset(s) + multiset{x}
  {
    if s != [] && key(s[|s| - 1]) > key(x) {
      InsertPermutes(s[..|s| - 1], x, key);
      assert s == s[..|s| - 1] + [s[|s| - 1]];
    }
  }

  lemma {:induction false} SortPermutes<T>(s: seq<T>, key: T -> int)
    ensures multiset(Sort(s, key)) == multiset(s)
  {
    if s != [] {
      var init, last := s[..|s| - 1], s[|s| - 1];
      SortPermutes(init, key);
      InsertPermutes(Sort(init, key), last, key);
      assert s == init + [last];
    }
  }

  /** Stability and order leave no choice: there is only one stable sort. */
  lemma {:induction false} StableSortIsUnique<T>(s: seq<T>, t: seq<T>, u: seq<T>, key: T -> int)
    requires IsStableSort(s, t, key) && IsStableSort(s, u, key)
    ensures t == u
    decreases |t|
  {
    if t == [] || u == [] {
      EmptyIfNoKeys(t, u, key);
      EmptyIfNoKeys(u, t, key);
    } else {
      var a, b := t[|t| - 1], u[|u| - 1];
      LastKeyIsGreatest(t, u, key);
      LastKeyIsGreatest(u, t, key);
      var k := key(a);
      assert WithKey(t, key, k) == WithKey(u, key, k);
      assert a == WithKey(t, key, k)[|WithKey(t, key, k)| - 1] == WithKey(u, key, k)[|WithKey(u, key, k)| - 1] == b;
      var t', u' := t[..|t| - 1], u[..|u| - 1];
      forall j
        ensures WithKey(u', key, j) == WithKey(t', key, j)
      {
        assert WithKey(t, key, j) == WithKey(u, key, j);
        var tail := if j == k then [a] else [];
        assert WithKey(t, key, j) == WithKey(t', key, j) + tail;
        assert WithKey(u, key, j) == WithKey(u', key, j) + tail;
        assert WithKey(t', key, j) == WithKey(t, key, j)[..|WithKey(t, key, j)| - |tail|];
      }
      StableSortIsUnique(t', t', u', key);
      assert t == t' + [a] && u == u' + [b];
    }
  }

  lemma {:induction false} KeyOccurs<T>(s: seq<T>, key: T -> int, k: int)
    ensures WithKey(s, key, k) != [] <==> exists x :: x in s && key(x) == k
  {
    if s != [] {
      KeyOccurs(s[..|s| - 1], key, k);
      assert s == s[..|s| - 1] + [s[|s| - 1]];
    }
  }

  lemma EmptyIfNoKeys<T>(t: seq<T>, u: seq<T>, key: T -> int)
    requires forall k :: WithKey(t, key, k) == WithKey(u, key, k)
    ensures t == [] ==> u == []
  {
    if u != [] {
      KeyOccurs(u, key, key(u[0]));
      KeyOccurs(t, key, key(u[0]));
      assert u[0] in u;
      assert WithKey(t, key, key(u[0])) == WithKey(u, key, key(u[0]));
    }
  }

  lemma LastKeyIsGreatest<T>(t: seq<T>, u: seq<T>, key: T -> int)
    requires t != [] && u != [] && Sorted(t, key)
    requires forall k :: WithKey(t, key, k) == WithKey(u, key, k)
    ensures key(u[|u| - 1]) <= key(t[|t| - 1])
  {
    var k := key(u[|u| - 1]);
    KeyOccurs(u, key, k);
    KeyOccurs(t, key, k);
    assert u[|u| - 1] in u;
    assert WithKey(t, key, k) == WithKey(u, key, k);
  }

  // ---- Push, sort, and search ----

  /** A list after pushes, each followed by a sort. */
  function AfterPushes<T>(history: seq<T>, key: T -> int): seq<T> {
    if history == [] then []
    else Sort(AfterPushes(history[..|history| - 1], key) + [history[|history| - 1]], key)
  }

  lemma {:induction false} SortOfSorted<T>(s: seq<T>, key: T -> int)
    requires Sorted(s, key)
    ensures Sort(s, key) == s
  {
    if s != [] {
      SortOfSorted(s[..|s| - 1], key);
      assert s == s[..|s| - 1] + [s[|s| - 1]];
    }
  }

  /** Sorting after every push is sorting once at the end. */
  lemma {:induction false} PushesSortHistory<T>(history: seq<T>, key: T -> int)
    ensures AfterPushes(history, key) == Sort(history, key)
  {
    if history != [] {
      var init, last := history[..|history| - 1], history[|history| - 1];
      PushesSortHistory(init, key);
      SortIsStable(init, key);
      SortOfSorted(Sort(init, key), key);
      assert (Sort(init, key) + [last])[..|Sort(init, key)|] == Sort(init, key);
    }
  }

  function FirstMatch<T>(s: seq<T>, p: T -> bool): (m: Option<T>)
    ensures m.Some? ==> p(m.value) && m.value in s
    ensures m.None? ==> forall i :: 0 <= i < |s| ==> !p(s[i])
  {
    if s == [] then None else if p(s[0]) then Some(s[0]) else FirstMatch(s[1..], p)
  }

  lemma {:induction false} FirstMatchOfConcat<T>(a: seq<T>, b: seq<T>, p: T -> bool)
    ensures FirstMatch(a + b, p) == if FirstMatch(a, p).Some? then FirstMatch(a, p) else FirstMatch(b, p)
  {
    if a == [] {
      assert a + b == b;
    } else {
      FirstMatchOfConcat(a[1..], b, p);
      assert (a + b)[1..] == a[1..] + b;
    }
  }

  lemma {:induction false} FirstMatchAfterInsert<T>(s: seq<T>, x: T, p: T -> bool, key: T -> int)
    requires Sorted(s, key)
    ensures FirstMatch(Insert(s, x, key), p) ==
      var m := FirstMatch(s, p);
      if m.Some? && (key(m.value) <= key(x) || !p(x)) then m else if p(x) then Some(x) else None
  {
    if s == [] {
    } else {
      var init, last := s[..|s| - 1], s[|s| - 1];
      assert s == init + [last];
      FirstMatchAfterInsert(init, x, p, key);
      FirstMatchOfConcat(init, [last], p);
      FirstMatchOfConcat(Insert(init, x, key), [last], p);
      FirstMatchOfConcat(s, [x], p);
    }
  }

  /** Entry `i` is the best match of the history: least key, and earliest among equals. */
  ghost predicate IsBest<T>(history: seq<T>, p: T -> bool, key: T -> int, i: nat) {
    && i < |history| && p(history[i])
    && forall j :: 0 <= j < |history| && p(history[j]) ==>
         key(history[i]) < key(history[j]) || (key(history[i]) == key(history[j]) && i <= j)
  }

  /** `m` is the best match of the history, or there is none. */
  ghost predicate Finds<T>(history: seq<T>, p: T -> bool, key: T -> int, m: Option<T>) {
    if m.Some? then exists i: nat :: IsBest(history, p, key, i) && history[i] == m.value
    else forall i :: 0 <= i < |history| ==> !p(history[i])
  }

  lemma BestAfterPush<T>(history: seq<T>, x: T, p: T -> bool, key: T -> int, m: Option<T>)
    requires Finds(history, p, key, m)
    ensures Finds(history + [x], p, key,
      if m.Some? && (key(m.value) <= key(x) || !p(x)) then m else if p(x) then Some(x) else None)
  {
    var h := history + [x];
    if m.Some? && (key(m.value) <= key(x) || !p(x)) {
      var i: nat :| IsBest(history, p, key, i) && history[i] == m.value;
      assert IsBest(h, p, key, i) && h[i] == m.value;
    } else if p(x) {
      assert IsBest(h, p, key, |history|) && h[|history|] == x;
    }
  }

  /** The first match in the kept list is the best match of the whole history. */
  lemma {:induction false} FirstMatchIsBest<T>(history: seq<T>, p: T -> bool, key: T -> int)
    ensures Finds(history, p, key, FirstMatch(AfterPushes(history, key), p))
  {
    PushesSortHistory(history, key);
    if history != [] {
      var init, last := history[..|history| - 1], history[|history| - 1];
      PushesSortHistory(init, key);
      FirstMatchIsBest(init, p, key);
      SortIsStable(init, key);
      FirstMatchAfterInsert(Sort(init, key), last, p, key);
      BestAfterPush(init, last, p, key, FirstMatch(Sort(init, key), p));
      assert history == init + [last];
    }
  }
}
