/** The `event` table both the generator and the reader work on, as a value.

    A SQL table is a set of rows; `msg_offset` is its primary key, so no two rows
    share an offset. The model lists the rows in ascending offset order, which
    makes `ORDER BY msg_offset ASC` the identity and lets every query be a filter
    over the sequence. */
module EventTable {
  import opened JavaLang

  /** One row: columns msg_offset, msg_key, type, data, event_size, created_at. */
  datatype Row = Row(offset: int, key: string, typ: string, data: string, size: int, createdAt: string)

  /** Offsets strictly increase along the sequence. */
  predicate Ascending(rows: seq<Row>)
  {
    forall i, j :: 0 <= i < j < |rows| ==> rows[i].offset < rows[j].offset
  }

  /** The whole table, listed by ascending (hence unique) offset. */
  type Table = t: seq<Row> | Ascending(t) witness []

  /** The rows of `s` that satisfy `p`, in their original order. */
  function Filter(s: seq<Row>, p: Row -> bool): (r: seq<Row>)
    ensures |r| <= |s|
    ensures forall x :: x in r <==> x in s && p(x)
    ensures Ascending(s) ==> Ascending(r)
    decreases |s|
  {
    if s == [] then []
    else
      var rest := Filter(s[1..], p);
      if p(s[0]) then
        AscendingConsTail(s, rest);
        [s[0]] + rest
      else rest
  }

  /** The head of an ascending sequence followed by an ascending run of rows
      taken from its tail is ascending. */
  lemma AscendingConsTail(s: seq<Row>, rest: seq<Row>)
    requires s != []
    ensures Ascending(s) && Ascending(rest) && (forall x :: x in rest ==> x in s[1..]) ==> Ascending([s[0]] + rest)
  {
    if Ascending(s) && Ascending(rest) && (forall x :: x in rest ==> x in s[1..]) {
      var r := [s[0]] + rest;
      forall i, j | 0 <= i < j < |r| ensures r[i].offset < r[j].offset {
        assert r[j] == rest[j - 1];
        if i == 0 {
          assert rest[j - 1] in s[1..];
          var k :| 0 <= k < |s[1..]| && s[1..][k] == rest[j - 1];
          assert s[k + 1] == r[j];
        } else {
          assert r[i] == rest[i - 1];
        }
      }
    }
  }

  /** A filter keeps nothing exactly when no row satisfies its predicate. */
  lemma {:induction false} FilterEmpty(s: seq<Row>, p: Row -> bool)
    ensures Filter(s, p) == [] <==> forall x :: x in s ==> !p(x)
    decreases |s|
  {
    if s != [] && forall x :: x in s ==> !p(x) {
      assert s[0] in s;
      forall x | x in s[1..] ensures !p(x) {
        assert x in s;
      }
      FilterEmpty(s[1..], p);
    }
  }

  /** Filters with predicates that agree on every row agree. */
  lemma {:induction false} FilterSamePredicate(s: seq<Row>, p: Row -> bool, q: Row -> bool)
    requires forall x :: p(x) == q(x)
    ensures Filter(s, p) == Filter(s, q)
    decreases |s|
  {
    if s != [] {
      FilterSamePredicate(s[1..], p, q);
    }
  }

  /** The number of rows of `s` that satisfy `p`: `SELECT COUNT(*) ... WHERE p`. */
  function Count(s: seq<Row>, p: Row -> bool): nat
    decreases |s|
  {
    if s == [] then 0 else (if p(s[0]) then 1 else 0) + Count(s[1..], p)
  }

  /** Counting agrees with filtering: the count is the length of the filter. */
  lemma {:induction false} CountIsFilterLength(s: seq<Row>, p: Row -> bool)
    ensures Count(s, p) == |Filter(s, p)|
    decreases |s|
  {
    if s != [] {
      CountIsFilterLength(s[1..], p);
    }
  }

  lemma {:induction false} CountAppend(a: seq<Row>, b: seq<Row>, p: Row -> bool)
    ensures Count(a + b, p) == Count(a, p) + Count(b, p)
    decreases |a|
  {
    if a == [] {
      assert a + b == b;
    } else {
      assert (a + b)[0] == a[0] && (a + b)[1..] == a[1..] + b;
      CountAppend(a[1..], b, p);
    }
  }

  lemma CountSingle(x: Row, p: Row -> bool)
    ensures Count([x], p) == if p(x) then 1 else 0
  {
    assert [x][1..] == [];
  }

  /** Two ascending sequences holding the same rows are the same sequence: a
      query result is determined by which rows it returns. */
  lemma {:induction false} AscendingUnique(a: seq<Row>, b: seq<Row>)
    requires Ascending(a) && Ascending(b)
    requires forall x :: x in a <==> x in b
    ensures a == b
    decreases |a|
  {
    assert a == [] || a[0] in b;
    assert b == [] || b[0] in a;
    if a != [] && b != [] {
      var i :| 0 <= i < |b| && b[i] == a[0];
      var j :| 0 <= j < |a| && a[j] == b[0];
      assert a[0].offset <= a[j].offset;
      assert b[0].offset <= b[i].offset;
      assert i == 0;
      forall x ensures x in a[1..] <==> x in b[1..] {
        AscendingTail(a, x);
        AscendingTail(b, x);
      }
      AscendingUnique(a[1..], b[1..]);
      assert a == [a[0]] + a[1..];
      assert b == [b[0]] + b[1..];
    }
  }

  lemma AscendingTail(a: seq<Row>, x: Row)
    requires Ascending(a) && a != []
    ensures x in a[1..] <==> x in a && x.offset > a[0].offset
  {
    if x in a && x.offset > a[0].offset {
      var i :| 0 <= i < |a| && a[i] == x;
      assert i != 0;
      assert a[1..][i - 1] == x;
    }
  }

  /** In an ascending sequence, the rows after position k are exactly those with
      a larger offset than row k. */
  lemma AscendingSuffix(a: seq<Row>, k: nat, x: Row)
    requires Ascending(a) && k < |a|
    ensures x in a[k + 1..] <==> x in a && x.offset > a[k].offset
  {
    if x in a && x.offset > a[k].offset {
      var i :| 0 <= i < |a| && a[i] == x;
      assert i > k;
      assert a[k + 1..][i - k - 1] == x;
    }
  }

  /** The rows of an ascending sequence up to position k are those with an
      offset no larger than row k's. */
  lemma AscendingPrefix(a: seq<Row>, k: nat, x: Row)
    requires Ascending(a) && k < |a|
    ensures x in a[..k + 1] <==> x in a && x.offset <= a[k].offset
  {
    if x in a && x.offset <= a[k].offset {
      var i :| 0 <= i < |a| && a[i] == x;
      assert i <= k;
      assert a[..k + 1][i] == x;
    }
  }

  /** An ascending sequence is its first k rows followed by the ascending run
      of its rows with larger offsets than row k - 1. */
  lemma AscendingSplit(e: seq<Row>, k: nat, f: seq<Row>)
    requires Ascending(e) && 0 < k <= |e| && Ascending(f)
    requires forall x :: x in f <==> x in e && x.offset > e[k - 1].offset
    ensures e == e[..k] + f
  {
    forall x ensures x in f <==> x in e[k..] {
      AscendingSuffix(e, k - 1, x);
    }
    assert Ascending(e[k..]);
    AscendingUnique(f, e[k..]);
    assert e == e[..k] + e[k..];
  }

  /** `MAX(msg_offset)`, or None for an empty table. In offset order the maximum is the last row. */
  function MaxOffset(t: Table): (m: Option<int>)
    ensures m.None? <==> t == []
    ensures m.Some? ==> (exists row :: row in t && row.offset == m.value)
    ensures m.Some? ==> forall row :: row in t ==> row.offset <= m.value
  {
    if t == [] then None
    else
      assert t[|t| - 1] in t;
      Some(t[|t| - 1].offset)
  }
}
