/** The ordering the store applies to query results: the ids of a table in
    ascending order, and a stable insertion sort by an integer key (a
    `createdAt` column, or its negation for newest first). */
module Listing {
  import opened Records

  /** `s` is in ascending order of `key`. */
  ghost predicate SortedBy<T>(s: seq<T>, key: T -> int) {
    forall i, j :: 0 <= i < j < |s| ==> key(s[i]) <= key(s[j])
  }

  /** `s` is strictly increasing, hence free of repetitions. */
  ghost predicate StrictlyIncreasing(s: seq<Id>) {
    forall i, j :: 0 <= i < j < |s| ==> s[i] < s[j]
  }

  /** A set of ids holding `n` has a least element (descent from `n`). */
  lemma {:induction false} LeastExists(ks: set<Id>, n: Id)
    requires n in ks
    ensures exists k :: k in ks && forall j :: j in ks ==> k <= j
    decreases n
  {
    if exists j :: j in ks && j < n {
      var j :| j in ks && j < n;
      LeastExists(ks, j);
    } else {
      assert forall j :: j in ks ==> n <= j;
    }
  }

  /** The least id of a non-empty set. */
  function Least(ks: set<Id>): (k: Id)
    requires ks != {}
    ensures k in ks
    ensures forall j :: j in ks ==> k <= j
  {
    var n :| n in ks;
    LeastExists(ks, n);
    var k :| k in ks && forall j :: j in ks ==> k <= j;
    k
  }

  /** Putting an id below every element in front keeps a sequence increasing. */
  lemma ConsIncreasing(k: Id, rest: seq<Id>)
    requires StrictlyIncreasing(rest)
    requires forall j :: j in rest ==> k < j
    ensures StrictlyIncreasing([k] + rest)
  {
    forall i, j | 0 <= i < j < |[k] + rest| ensures ([k] + rest)[i] < ([k] + rest)[j] {
      if i == 0 {
        assert ([k] + rest)[j] == rest[j - 1] && rest[j - 1] in rest;
      } else {
        assert ([k] + rest)[i] == rest[i - 1] && ([k] + rest)[j] == rest[j - 1];
      }
    }
  }

  /** The ids of `ks` listed once each, smallest first. */
  function Ascending(ks: set<Id>): (r: seq<Id>)
    ensures |r| == |ks|
    ensures forall k :: k in r <==> k in ks
    ensures StrictlyIncreasing(r)
    decreases |ks|
  {
    if ks == {} then []
    else
      var k := Least(ks);
      var rest := Ascending(ks - {k});
      ConsIncreasing(k, rest);
      [k] + rest
  }

  /** The records of `m` stored under `ids`, in the order of `ids`. */
  function Rows<T>(m: map<Id, T>, ids: seq<Id>): (r: seq<T>)
    requires forall k :: k in ids ==> k in m
    ensures |r| == |ids|
    ensures forall i :: 0 <= i < |ids| ==> r[i] == m[ids[i]]
  {
    seq(|ids|, i requires 0 <= i < |ids| => m[ids[i]])
  }

  /** A value is among the rows of `ks` exactly when some id of `ks` holds it. */
  lemma RowsOf<T>(m: map<Id, T>, ks: set<Id>, v: T)
    requires ks <= m.Keys
    ensures v in Rows(m, Ascending(ks)) <==> exists k :: k in ks && m[k] == v
  {
    var ids := Ascending(ks);
    var rows := Rows(m, ids);
    if v in rows {
      var i :| 0 <= i < |rows| && rows[i] == v;
      assert ids[i] in ks;
    }
    if exists k :: k in ks && m[k] == v {
      var k :| k in ks && m[k] == v;
      var i :| 0 <= i < |ids| && ids[i] == k;
      assert rows[i] == v;
    }
  }

  /** Putting an element whose key is not above the head in front keeps a sequence sorted. */
  lemma ConsSorted<T>(h: T, t: seq<T>, key: T -> int)
    requires SortedBy(t, key)
    requires t != [] ==> key(h) <= key(t[0])
    ensures SortedBy([h] + t, key)
  {
    forall i, j | 0 <= i < j < |[h] + t| ensures key(([h] + t)[i]) <= key(([h] + t)[j]) {
      if i == 0 {
        assert ([h] + t)[j] == t[j - 1];
      } else {
        assert ([h] + t)[i] == t[i - 1] && ([h] + t)[j] == t[j - 1];
      }
    }
  }

  /** `x` placed into the sorted `s` before the first element whose key is not
      smaller, so after every element with a smaller key. */
  function Insert<T>(x: T, s: seq<T>, key: T -> int): (r: seq<T>)
    requires SortedBy(s, key)
    ensures SortedBy(r, key)
    ensures multiset(r) == multiset(s) + multiset{x}
    ensures r[0] == x || (s != [] && r[0] == s[0])
    decreases |s|
  {
    if s == [] then [x]
    else if key(x) <= key(s[0]) then
      ConsSorted(x, s, key);
      [x] + s
    else
      var rest := Insert(x, s[1..], key);
      assert s == [s[0]] + s[1..];
      ConsSorted(s[0], rest, key);
      [s[0]] + rest
  }

  /** A permutation of `s` in ascending order of `key`. Each element is inserted
      before the equal keys that follow it, so equal keys keep their order. */
  function SortBy<T>(s: seq<T>, key: T -> int): (r: seq<T>)
    ensures SortedBy(r, key)
    ensures multiset(r) == multiset(s)
    decreases |s|
  {
    if s == [] then []
    else
      assert s == [s[0]] + s[1..];
      Insert(s[0], SortBy(s[1..], key), key)
  }

  /** The records of `m` under the ids `ks`, each once, in ascending order of
      `key`; records with equal keys come in ascending id order. */
  function Listed<T(!new)>(m: map<Id, T>, ks: set<Id>, key: T -> int): (r: seq<T>)
    requires ks <= m.Keys
    ensures SortedBy(r, key)
    ensures |r| == |ks|
    ensures forall v :: v in r <==> exists k :: k in ks && m[k] == v
  {
    var rows := Rows(m, Ascending(ks));
    var r := SortBy(rows, key);
    assert |r| == |rows| by {
      assert |multiset(r)| == |multiset(rows)|;
    }
    forall v ensures v in r <==> exists k :: k in ks && m[k] == v {
      RowsOf(m, ks, v);
      assert v in r <==> v in multiset(rows);
    }
    r
  }
}
