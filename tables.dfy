/** Relational building blocks shared by both pipelines: a missing-value wrapper,
    a result type for aborted builds, order-preserving filters and the pandas
    left join on a key. */
module Tables {

  /** A table cell that may be missing (pandas NaN). */
  datatype Option<+T> = None | Some(value: T)

  /** The outcome of a computation that can abort. */
  datatype Result<+T, +E> = Ok(value: T) | Err(error: E)

  /** A calendar date as a day number: consecutive days differ by one. */
  type Date = int

  /** Cell `c` of a row; a column past the end of the row reads as missing. */
  function Cell(cells: seq<Option<real>>, c: nat): Option<real>
  {
    if c < |cells| then cells[c] else None
  }

  /** `w` missing cells: what a left join puts in the right table's columns when no row matches. */
  function Missing(w: nat): (r: seq<Option<real>>)
    ensures |r| == w && forall c :: 0 <= c < w ==> r[c].None?
  {
    seq(w, _ => None)
  }

  /** fillna(0) on one cell. */
  function OrZero(x: Option<real>): real
  {
    if x.Some? then x.value else 0.0
  }

  /** Positions in a concatenation: the left part first, then the right part. */
  lemma AppendAt<T>(a: seq<T>, b: seq<T>, i: nat)
    requires i < |a| + |b|
    ensures i < |a| ==> (a + b)[i] == a[i]
    ensures i >= |a| ==> (a + b)[i] == b[i - |a|]
  {
  }

  /** The rows of `s` that satisfy `p`, in their original order (boolean-mask selection). */
  function Filter<T(!new)>(s: seq<T>, p: T -> bool): (r: seq<T>)
    ensures |r| <= |s|
    ensures forall x :: x in r <==> x in s && p(x)
  {
    if s == [] then [] else (if p(s[0]) then [s[0]] else []) + Filter(s[1..], p)
  }

  /** Selecting rows commutes with concatenation, so the selection keeps the original row order. */
  lemma {:induction false} FilterAppend<T(!new)>(a: seq<T>, b: seq<T>, p: T -> bool)
    ensures Filter(a + b, p) == Filter(a, p) + Filter(b, p)
  {
    if a == [] {
      assert a + b == b;
    } else {
      assert (a + b)[1..] == a[1..] + b;
      FilterAppend(a[1..], b, p);
    }
  }

  /** The values `f` keeps, in row order: a row-wise computation followed by dropping rows. */
  function FilterMap<T(!new), U(!new)>(s: seq<T>, f: T -> Option<U>): (r: seq<U>)
    ensures |r| <= |s|
    ensures forall u :: u in r <==> exists x :: x in s && f(x) == Some(u)
  {
    if s == [] then []
    else
      var rest := FilterMap(s[1..], f);
      assert forall x :: x in s[1..] ==> x in s;
      assert forall x :: x in s ==> x == s[0] || x in s[1..];
      (if f(s[0]).Some? then [f(s[0]).value] else []) + rest
  }

  /** No two rows of `s` share a key. */
  predicate UniqueBy<T, K(==)>(s: seq<T>, key: T -> K)
  {
    forall i, j :: 0 <= i < j < |s| ==> key(s[i]) != key(s[j])
  }

  /** The rows of `right` whose key is `k`, in order. */
  function MatchesOf<R(!new), K(==)>(right: seq<R>, rk: R -> K, k: K): (m: seq<R>)
    ensures forall r :: r in m <==> r in right && rk(r) == k
  {
    if right == [] then []
    else (if rk(right[0]) == k then [right[0]] else []) + MatchesOf(right[1..], rk, k)
  }

  /** A key that no row carries matches nothing. */
  lemma {:induction false} MatchesOfNone<R(!new), K>(right: seq<R>, rk: R -> K, k: K)
    requires forall j :: 0 <= j < |right| ==> rk(right[j]) != k
    ensures MatchesOf(right, rk, k) == []
  {
    if right != [] {
      MatchesOfNone(right[1..], rk, k);
    }
  }

  /** In a table with unique keys a key matches at most one row. */
  lemma {:induction false} MatchesOfUnique<R(!new), K>(right: seq<R>, rk: R -> K, k: K)
    requires UniqueBy(right, rk)
    ensures |MatchesOf(right, rk, k)| <= 1
  {
    if right != [] {
      var rest := right[1..];
      assert UniqueBy(rest, rk) by {
        forall i, j | 0 <= i < j < |rest| ensures rk(rest[i]) != rk(rest[j]) {
          assert rest[i] == right[i + 1] && rest[j] == right[j + 1];
        }
      }
      MatchesOfUnique(rest, rk, k);
      if rk(right[0]) == k {
        assert forall j :: 0 <= j < |rest| ==> rest[j] == right[j + 1] && rk(rest[j]) != k;
        MatchesOfNone(rest, rk, k);
      }
    }
  }

  /** The first row of `right` with key `k`, if any. */
  function Lookup<R(!new), K(==)>(right: seq<R>, rk: R -> K, k: K): (r: Option<R>)
    ensures r.Some? ==> r.value in right && rk(r.value) == k
    ensures r.None? <==> forall x :: x in right ==> rk(x) != k
  {
    var m := MatchesOf(right, rk, k);
    if m == [] then None else Some(m[0])
  }

  /** `Lookup` finds the first row of `right` that carries the key. */
  lemma {:induction false} LookupFirst<R(!new), K>(right: seq<R>, rk: R -> K, k: K) returns (i: nat)
    requires Lookup(right, rk, k).Some?
    ensures i < |right| && right[i] == Lookup(right, rk, k).value
    ensures forall j :: 0 <= j < i ==> rk(right[j]) != k
  {
    if rk(right[0]) == k {
      i := 0;
    } else {
      assert MatchesOf(right, rk, k) == MatchesOf(right[1..], rk, k);
      var i' := LookupFirst(right[1..], rk, k);
      i := i' + 1;
      forall j | 0 <= j < i ensures rk(right[j]) != k {
        if j > 0 {
          assert right[j] == right[1..][j - 1];
        }
      }
    }
  }

  /** The rows of `right` a key matches are the boolean-mask selection of the rows carrying it,
      so they keep the right table's order. */
  lemma {:induction false} MatchesOfSelects<R(!new), K>(right: seq<R>, rk: R -> K, k: K)
    ensures MatchesOf(right, rk, k) == Filter(right, x => rk(x) == k)
  {
    if right != [] {
      MatchesOfSelects(right[1..], rk, k);
    }
  }

  /** A left row is paired with every right row on its key, once each and in the right table's
      order; with no such right row it is kept once, paired with nothing. */
  lemma JoinOneMatches<L, R(!new), K>(l: L, right: seq<R>, lk: L -> K, rk: R -> K)
    ensures var m := MatchesOf(right, rk, lk(l));
      |JoinOne(l, right, lk, rk)| == (if m == [] then 1 else |m|) &&
      (m == [] ==> JoinOne(l, right, lk, rk) == [(l, None)]) &&
      (forall i :: 0 <= i < |m| ==> JoinOne(l, right, lk, rk)[i] == (l, Some(m[i])))
  {
  }

  /** The output rows of a left join for one left row: one per matching right row, or one with no match. */
  function JoinOne<L, R(!new), K(==)>(l: L, right: seq<R>, lk: L -> K, rk: R -> K): (out: seq<(L, Option<R>)>)
    ensures |out| >= 1
    ensures forall j :: 0 <= j < |out| ==> out[j].0 == l
  {
    var m := MatchesOf(right, rk, lk(l));
    if m == [] then [(l, None)] else seq(|m|, i requires 0 <= i < |m| => (l, Some(m[i])))
  }

  /** pandas `left.merge(right, how='left')`: left rows in order, each paired with every right row on
      the same key (in right order), or with None when no right row has that key. */
  function LeftJoin<L, R(!new), K(==)>(left: seq<L>, right: seq<R>, lk: L -> K, rk: R -> K): (out: seq<(L, Option<R>)>)
    ensures |out| >= |left|
    ensures forall j :: 0 <= j < |out| ==> out[j].0 in left
  {
    if left == [] then [] else JoinOne(left[0], right, lk, rk) + LeftJoin(left[1..], right, lk, rk)
  }

  /** Every output row of a left join for one left row pairs it with a right row on its key, or with
      None when no right row has that key. */
  lemma JoinOnePairs<L, R(!new), K>(l: L, right: seq<R>, lk: L -> K, rk: R -> K)
    ensures forall j :: 0 <= j < |JoinOne(l, right, lk, rk)| ==>
      var p := JoinOne(l, right, lk, rk)[j];
      (p.1.Some? ==> p.1.value in right && rk(p.1.value) == lk(l)) &&
      (p.1.None? ==> forall x :: x in right ==> rk(x) != lk(l))
  {
    var m := MatchesOf(right, rk, lk(l));
    if m != [] {
      forall j | 0 <= j < |m| ensures m[j] in right && rk(m[j]) == lk(l) {
        assert m[j] in m;
      }
    }
  }

  /** Every output row of a left join pairs a left row with a right row on the same key, or with
      None when the right table has no such key. */
  lemma {:induction false} LeftJoinPairs<L, R(!new), K>(left: seq<L>, right: seq<R>, lk: L -> K, rk: R -> K)
    ensures forall j :: 0 <= j < |LeftJoin(left, right, lk, rk)| ==>
      var p := LeftJoin(left, right, lk, rk)[j];
      p.0 in left &&
      (p.1.Some? ==> p.1.value in right && rk(p.1.value) == lk(p.0)) &&
      (p.1.None? ==> forall x :: x in right ==> rk(x) != lk(p.0))
  {
    if left != [] {
      var one := JoinOne(left[0], right, lk, rk);
      var rest := LeftJoin(left[1..], right, lk, rk);
      LeftJoinPairs(left[1..], right, lk, rk);
      JoinOnePairs(left[0], right, lk, rk);
      var out := LeftJoin(left, right, lk, rk);
      assert out == one + rest;
      forall j | 0 <= j < |out|
        ensures out[j].0 in left
        ensures out[j].1.Some? ==> out[j].1.value in right && rk(out[j].1.value) == lk(out[j].0)
        ensures out[j].1.None? ==> forall x :: x in right ==> rk(x) != lk(out[j].0)
      {
        if j < |one| {
          assert out[j] == one[j];
        } else {
          assert out[j] == rest[j - |one|];
          assert rest[j - |one|].0 in left[1..];
        }
      }
    }
  }

  /** The position of a left join's output row for a given left row. */
  lemma {:induction false} JoinWitness<L, R(!new), K>(left: seq<L>, right: seq<R>, lk: L -> K, rk: R -> K, x: L)
    returns (i: nat)
    requires x in left
    ensures i < |LeftJoin(left, right, lk, rk)| && LeftJoin(left, right, lk, rk)[i].0 == x
  {
    var one := JoinOne(left[0], right, lk, rk);
    var out := LeftJoin(left, right, lk, rk);
    assert out == one + LeftJoin(left[1..], right, lk, rk);
    if left[0] == x {
      i := 0;
      assert out[0] == one[0];
    } else {
      assert x in left[1..];
      var k := JoinWitness(left[1..], right, lk, rk, x);
      i := |one| + k;
    }
  }

  /** The left row an output row of a left join comes from. */
  lemma LeftJoinSource<L, R(!new), K>(left: seq<L>, right: seq<R>, lk: L -> K, rk: R -> K, j: nat) returns (i: nat)
    requires j < |LeftJoin(left, right, lk, rk)|
    ensures i < |left| && LeftJoin(left, right, lk, rk)[j].0 == left[i]
  {
    LeftJoinPairs(left, right, lk, rk);
    var x := LeftJoin(left, right, lk, rk)[j].0;
    assert x in left;
    i :| 0 <= i < |left| && left[i] == x;
  }

  /** A left join has at least one output row per left row. */
  lemma {:induction false} LeftJoinLength<L, R(!new), K>(left: seq<L>, right: seq<R>, lk: L -> K, rk: R -> K)
    ensures |LeftJoin(left, right, lk, rk)| >= |left|
  {
    if left != [] {
      LeftJoinLength(left[1..], right, lk, rk);
    }
  }

  /** A left join keeps every left row. */
  lemma LeftJoinCovers<L, R(!new), K>(left: seq<L>, right: seq<R>, lk: L -> K, rk: R -> K)
    ensures |LeftJoin(left, right, lk, rk)| >= |left|
    ensures forall i :: 0 <= i < |left| ==>
      exists j :: 0 <= j < |LeftJoin(left, right, lk, rk)| && LeftJoin(left, right, lk, rk)[j].0 == left[i]
  {
    LeftJoinLength(left, right, lk, rk);
    forall i | 0 <= i < |left|
      ensures exists j :: 0 <= j < |LeftJoin(left, right, lk, rk)| && LeftJoin(left, right, lk, rk)[j].0 == left[i]
    {
      var j := JoinWitness(left, right, lk, rk, left[i]);
    }
  }

  /** A left join keeps every left row, adds no row of its own, and pairs a row only with a
      right row on the same key, or with None when the right table has no such key. */
  lemma LeftJoinKeepsLeft<L, R(!new), K>(left: seq<L>, right: seq<R>, lk: L -> K, rk: R -> K)
    ensures |LeftJoin(left, right, lk, rk)| >= |left|
    ensures forall i :: 0 <= i < |left| ==>
      exists j :: 0 <= j < |LeftJoin(left, right, lk, rk)| && LeftJoin(left, right, lk, rk)[j].0 == left[i]
    ensures forall j :: 0 <= j < |LeftJoin(left, right, lk, rk)| ==>
      var p := LeftJoin(left, right, lk, rk)[j];
      p.0 in left &&
      (p.1.Some? ==> p.1.value in right && rk(p.1.value) == lk(p.0)) &&
      (p.1.None? ==> forall x :: x in right ==> rk(x) != lk(p.0))
  {
    LeftJoinCovers(left, right, lk, rk);
    LeftJoinPairs(left, right, lk, rk);
  }

  /** With at most one match, a left row yields exactly one output row. */
  lemma JoinOneSingle<L, R(!new), K>(l: L, right: seq<R>, lk: L -> K, rk: R -> K)
    requires |MatchesOf(right, rk, lk(l))| <= 1
    ensures JoinOne(l, right, lk, rk) == [(l, Lookup(right, rk, lk(l)))]
  {
  }

  /** When the right table has at most one row per key, a left join keeps the left table's rows
      one for one, in order, each paired with the row `Lookup` finds. */
  lemma {:induction false} LeftJoinUnique<L, R(!new), K>(left: seq<L>, right: seq<R>, lk: L -> K, rk: R -> K)
    requires UniqueBy(right, rk)
    ensures |LeftJoin(left, right, lk, rk)| == |left|
    ensures forall i :: 0 <= i < |left| ==>
      LeftJoin(left, right, lk, rk)[i] == (left[i], Lookup(right, rk, lk(left[i])))
  {
    if left != [] {
      MatchesOfUnique(right, rk, lk(left[0]));
      JoinOneSingle(left[0], right, lk, rk);
      LeftJoinUnique(left[1..], right, lk, rk);
      var rest := LeftJoin(left[1..], right, lk, rk);
      assert LeftJoin(left, right, lk, rk) == [(left[0], Lookup(right, rk, lk(left[0])))] + rest;
      assert forall i :: 1 <= i < |left| ==> left[i] == left[1..][i - 1];
    }
  }

  /** Selecting rows keeps keys unique. */
  lemma {:induction false} FilterUnique<T(!new), K>(s: seq<T>, p: T -> bool, key: T -> K)
    requires UniqueBy(s, key)
    ensures UniqueBy(Filter(s, p), key)
  {
    if s != [] {
      var rest := s[1..];
      assert UniqueBy(rest, key) by {
        forall i, j | 0 <= i < j < |rest| ensures key(rest[i]) != key(rest[j]) {
          assert rest[i] == s[i + 1] && rest[j] == s[j + 1];
        }
      }
      FilterUnique(rest, p, key);
      var fr := Filter(rest, p);
      if p(s[0]) {
        forall j | 0 <= j < |fr| ensures key(s[0]) != key(fr[j]) {
          assert fr[j] in rest;
          var m :| 0 <= m < |rest| && rest[m] == fr[j];
          assert s[m + 1] == fr[j];
        }
        UniqueByAppend([s[0]], fr, key);
      } else {
        assert Filter(s, p) == fr;
      }
    }
  }

  /** Two tables with unique keys and no key in common concatenate to a table with unique keys. */
  lemma UniqueByAppend<T, K>(a: seq<T>, b: seq<T>, key: T -> K)
    requires UniqueBy(a, key) && UniqueBy(b, key)
    requires forall i, j :: 0 <= i < |a| && 0 <= j < |b| ==> key(a[i]) != key(b[j])
    ensures UniqueBy(a + b, key)
  {
    var ab := a + b;
    forall i, j | 0 <= i < j < |ab| ensures key(ab[i]) != key(ab[j]) {
      if j < |a| {
        assert ab[i] == a[i] && ab[j] == a[j];
      } else if i < |a| {
        assert ab[i] == a[i] && ab[j] == b[j - |a|];
      } else {
        assert ab[i] == b[i - |a|] && ab[j] == b[j - |a|];
      }
    }
  }

  /** The left parts of a left join's output rows are exactly the left table's rows. */
  lemma LeftJoinLeftParts<L, R(!new), K>(left: seq<L>, right: seq<R>, lk: L -> K, rk: R -> K)
    ensures forall o :: o in LeftJoin(left, right, lk, rk) ==> o.0 in left
    ensures forall x :: x in left ==> exists o :: o in LeftJoin(left, right, lk, rk) && o.0 == x
  {
    var out := LeftJoin(left, right, lk, rk);
    LeftJoinKeepsLeft(left, right, lk, rk);
    forall x | x in left ensures exists o :: o in out && o.0 == x {
      var i :| 0 <= i < |left| && left[i] == x;
      var j :| 0 <= j < |out| && out[j].0 == left[i];
      assert out[j] in out;
    }
  }

  /** In a table with unique keys, the row `Lookup` finds for a key is the one row carrying it. */
  lemma LookupFinds<R(!new), K>(right: seq<R>, rk: R -> K, k: K, x: R)
    requires UniqueBy(right, rk) && x in right && rk(x) == k
    ensures Lookup(right, rk, k) == Some(x)
  {
    MatchesOfUnique(right, rk, k);
    var ms := MatchesOf(right, rk, k);
    assert x in ms && Lookup(right, rk, k).value in ms;
  }
}
