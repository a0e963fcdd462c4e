/** Option and the sequence operations that stand for SQL over a table held
    as a sequence of rows in insertion order: `WHERE` is Filter, `UPDATE … WHERE`
    is MapWhere, `ORDER BY … DESC` over rows stored in ascending order is Reverse. */
module Seqs {

  datatype Option<+T> = None | Some(value: T)

  /** The rows of `s` that satisfy `p`, in their original order. */
  function Filter<T(!new)>(s: seq<T>, p: T -> bool): (r: seq<T>)
    ensures |r| <= |s|
    ensures forall x {:trigger x in r} :: x in r <==> x in s && p(x)
    decreases |s|
  {
    if s == [] then []
    else if p(s[0]) then [s[0]] + Filter(s[1..], p)
    else Filter(s[1..], p)
  }

  /** Every row satisfying `p` is replaced by `f` of it; the others stay. */
  function MapWhere<T>(s: seq<T>, p: T -> bool, f: T -> T): (r: seq<T>)
    ensures |r| == |s|
    ensures forall i :: 0 <= i < |s| ==> r[i] == (if p(s[i]) then f(s[i]) else s[i])
  {
    seq(|s|, i requires 0 <= i < |s| => if p(s[i]) then f(s[i]) else s[i])
  }

  /** After an `UPDATE … WHERE`, the table holds exactly the rewritten
      matching rows and the untouched other rows. */
  lemma MapWhereMembers<T>(s: seq<T>, p: T -> bool, f: T -> T)
    ensures forall x :: x in MapWhere(s, p, f) <==>
              (exists y :: y in s && p(y) && x == f(y)) || (x in s && !p(x))
  {
    var r := MapWhere(s, p, f);
    forall x | x in r ensures (exists y :: y in s && p(y) && x == f(y)) || (x in s && !p(x)) {
      var i := InIndex(r, x);
      assert s[i] in s;
    }
    forall x | (exists y :: y in s && p(y) && x == f(y)) || (x in s && !p(x)) ensures x in r {
      if y :| y in s && p(y) && x == f(y) {
        var i := InIndex(s, y);
        assert r[i] == x;
      } else {
        var i := InIndex(s, x);
        assert r[i] == x;
      }
    }
  }

  /** An `UPDATE … WHERE` that matches no row leaves the table as it was. */
  lemma MapWhereNoMatch<T>(s: seq<T>, p: T -> bool, f: T -> T)
    requires forall i :: 0 <= i < |s| ==> !p(s[i])
    ensures MapWhere(s, p, f) == s
  {}

  /** The sequence read back to front. */
  function Reverse<T(!new)>(s: seq<T>): (r: seq<T>)
    ensures |r| == |s|
    ensures forall x :: x in r <==> x in s
    ensures forall i :: 0 <= i < |s| ==> r[i] == s[|s| - 1 - i]
    decreases |s|
  {
    if s == [] then [] else Reverse(s[1..]) + [s[0]]
  }

  /** `key` strictly increases along `s` (so `key` is also unique in `s`). */
  ghost predicate IncreasingBy<T>(s: seq<T>, key: T -> int) {
    forall i, j :: 0 <= i < j < |s| ==> key(s[i]) < key(s[j])
  }

  /** `key` strictly decreases along `s`. */
  ghost predicate DecreasingBy<T>(s: seq<T>, key: T -> int) {
    forall i, j :: 0 <= i < j < |s| ==> key(s[i]) > key(s[j])
  }

  /** Wherever `x` occurs in a sequence, some index holds it. */
  lemma InIndex<T>(s: seq<T>, x: T) returns (k: nat)
    requires x in s
    ensures k < |s| && s[k] == x
  {
    k :| k < |s| && s[k] == x;
  }

  /** In an increasing sequence two rows with the same key are the same row. */
  lemma IncreasingUnique<T>(s: seq<T>, key: T -> int, x: T, y: T)
    requires IncreasingBy(s, key)
    requires x in s && y in s && key(x) == key(y)
    ensures x == y
  {
    var i := InIndex(s, x);
    var j := InIndex(s, y);
  }

  /** Filtering keeps the order of the rows it keeps. */
  lemma {:induction false} FilterIncreasing<T(!new)>(s: seq<T>, p: T -> bool, key: T -> int)
    requires IncreasingBy(s, key)
    ensures IncreasingBy(Filter(s, p), key)
    decreases |s|
  {
    if s != [] {
      var tail := s[1..];
      assert IncreasingBy(tail, key) by {
        forall i, j | 0 <= i < j < |tail| ensures key(tail[i]) < key(tail[j]) {
          assert tail[i] == s[i + 1] && tail[j] == s[j + 1];
        }
      }
      FilterIncreasing(tail, p, key);
      if p(s[0]) {
        var r := Filter(s, p);
        var rt := Filter(tail, p);
        assert r == [s[0]] + rt;
        forall i, j | 0 <= i < j < |r| ensures key(r[i]) < key(r[j]) {
          if i == 0 {
            assert r[j] == rt[j - 1] && rt[j - 1] in rt;
            var k := InIndex(tail, r[j]);
            assert s[k + 1] == r[j];
          } else {
            assert r[i] == rt[i - 1] && r[j] == rt[j - 1];
          }
        }
      }
    }
  }

  /** Reading an increasing sequence backwards gives a decreasing one. */
  lemma ReverseIncreasing<T(!new)>(s: seq<T>, key: T -> int)
    requires IncreasingBy(s, key)
    ensures DecreasingBy(Reverse(s), key)
  {
    var r := Reverse(s);
    forall i, j | 0 <= i < j < |r| ensures key(r[i]) > key(r[j]) {
      assert r[i] == s[|s| - 1 - i] && r[j] == s[|s| - 1 - j];
    }
  }

  /** Appending a row whose key exceeds every key keeps the order. */
  lemma AppendIncreasing<T>(s: seq<T>, x: T, key: T -> int)
    requires IncreasingBy(s, key)
    requires forall i :: 0 <= i < |s| ==> key(s[i]) < key(x)
    ensures IncreasingBy(s + [x], key)
  {
    var t := s + [x];
    forall i, j | 0 <= i < j < |t| ensures key(t[i]) < key(t[j]) {
      assert t[i] == s[i];
      if j < |s| { assert t[j] == s[j]; } else { assert t[j] == x; }
    }
  }

  /** Filtering a sequence with one row appended. */
  lemma {:induction false} FilterAppend<T(!new)>(s: seq<T>, x: T, p: T -> bool)
    ensures Filter(s + [x], p) == Filter(s, p) + (if p(x) then [x] else [])
    decreases |s|
  {
    if s == [] {
      assert [x][1..] == [];
    } else {
      assert (s + [x])[0] == s[0];
      assert (s + [x])[1..] == s[1..] + [x];
      FilterAppend(s[1..], x, p);
    }
  }

  /** No row satisfies `p`: the filter is empty. */
  lemma {:induction false} FilterNone<T(!new)>(s: seq<T>, p: T -> bool)
    requires forall x :: x in s ==> !p(x)
    ensures Filter(s, p) == []
    decreases |s|
  {
    if s != [] {
      assert s[0] in s;
      assert forall x :: x in s[1..] ==> x in s;
      FilterNone(s[1..], p);
    }
  }

  /** Filtering out exactly the row at index `k` leaves the rows around it. */
  lemma {:induction false} FilterAllBut<T(!new)>(s: seq<T>, p: T -> bool, k: nat)
    requires k < |s| && !p(s[k])
    requires forall i :: 0 <= i < |s| && i != k ==> p(s[i])
    ensures Filter(s, p) == s[..k] + s[k + 1..]
    decreases |s|
  {
    var tail := s[1..];
    if k == 0 {
      forall i | 0 <= i < |tail| ensures p(tail[i]) {
        assert tail[i] == s[i + 1];
      }
      FilterAll(tail, p);
      assert s[..0] + s[1..] == tail;
    } else {
      forall i | 0 <= i < |tail| && i != k - 1 ensures p(tail[i]) {
        assert tail[i] == s[i + 1];
      }
      assert p(s[0]);
      FilterAllBut(tail, p, k - 1);
      assert s[..k] == [s[0]] + tail[..k - 1];
      assert s[k + 1..] == tail[k..];
    }
  }

  /** Every row satisfies `p`: the filter keeps them all. */
  lemma {:induction false} FilterAll<T(!new)>(s: seq<T>, p: T -> bool)
    requires forall i :: 0 <= i < |s| ==> p(s[i])
    ensures Filter(s, p) == s
    decreases |s|
  {
    if s != [] {
      FilterAll(s[1..], p);
      assert [s[0]] + s[1..] == s;
    }
  }

  /** When `p` pins the key to one value and the key is unique, at most one row
      matches, and it is the row at the index given. */
  lemma {:induction false} FilterSingle<T(!new)>(s: seq<T>, p: T -> bool, key: T -> int, v: int, k: nat)
    requires IncreasingBy(s, key)
    requires forall x :: p(x) ==> key(x) == v
    requires k < |s| && p(s[k])
    ensures Filter(s, p) == [s[k]]
    decreases |s|
  {
    if k == 0 {
      forall x | x in s[1..] ensures !p(x) {
        var m := InIndex(s[1..], x);
        assert key(s[0]) < key(s[m + 1]);
      }
      FilterNone(s[1..], p);
    } else {
      assert key(s[0]) < key(s[k]);
      var tail := s[1..];
      assert IncreasingBy(tail, key) by {
        forall i, j | 0 <= i < j < |tail| ensures key(tail[i]) < key(tail[j]) {
          assert tail[i] == s[i + 1] && tail[j] == s[j + 1];
        }
      }
      assert tail[k - 1] == s[k];
      FilterSingle(tail, p, key, v, k - 1);
    }
  }
}
