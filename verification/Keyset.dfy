/** Keyset pagination: a scan reads a filtered, ordered table a page at a time, each page
    starting beyond the last row of the page before it. */
module Keyset {
  import opened Tenancy

  const PAGE_SIZE: nat := 100

  function Filter<T(!new)>(s: seq<T>, keep: T -> bool): (f: seq<T>)
    ensures forall x :: x in f <==> x in s && keep(x)
    ensures |f| <= |s|
  {
    if s == [] then [] else (if keep(s[0]) then [s[0]] else []) + Filter(s[1..], keep)
  }

  /** One page: the query's LIMIT. */
  function Page<T>(s: seq<T>): (p: seq<T>)
    ensures |p| == (if |s| < 100 then |s| else 100) && p == s[..|p|]
    ensures |p| <= PAGE_SIZE && |p| <= |s|
    ensures |p| < PAGE_SIZE ==> p == s
  {
    if |s| <= PAGE_SIZE then s else s[..PAGE_SIZE]
  }

  // What "ordered by a key" promises for a comparison of rows.
  ghost predicate Sorted<T(!new)>(s: seq<T>, less: (T, T) -> bool) {
    && (forall i, j :: 0 <= i < j < |s| ==> less(s[i], s[j]))
    && (forall i, j :: 0 <= i <= j < |s| ==> !less(s[j], s[i]))
  }

  lemma {:induction false} FilterSorted<T(!new)>(s: seq<T>, keep: T -> bool, less: (T, T) -> bool)
    requires Sorted(s, less)
    ensures Sorted(Filter(s, keep), less)
  {
    if s != [] {
      FilterSorted(s[1..], keep, less);
      var rest := Filter(s[1..], keep);
      forall x | x in rest ensures less(s[0], x) && !less(x, s[0]) {
        var i :| 1 <= i < |s| && s[i] == x;
      }
      assert !less(s[0], s[0]);
    }
  }

  lemma {:induction false} FilterCongruence<T(!new)>(s: seq<T>, keep: T -> bool, keep2: T -> bool)
    requires forall x :: x in s ==> keep(x) == keep2(x)
    ensures Filter(s, keep) == Filter(s, keep2)
  {
    if s != [] {
      FilterCongruence(s[1..], keep, keep2);
    }
  }

  lemma {:induction false} FilterNone<T(!new)>(s: seq<T>, keep: T -> bool)
    requires forall x :: x in s ==> !keep(x)
    ensures Filter(s, keep) == []
  {
    if s != [] { FilterNone(s[1..], keep); }
  }

  lemma FilterCons<T(!new)>(x: T, s: seq<T>, keep: T -> bool)
    ensures Filter([x] + s, keep) == (if keep(x) then [x] else []) + Filter(s, keep)
  {
    assert ([x] + s)[1..] == s;
  }

  /** Two conditions one after the other. */
  lemma {:induction false} FilterTwice<T(!new)>(s: seq<T>, keep: T -> bool, also: T -> bool, both: T -> bool)
    requires forall x :: x in s ==> both(x) == (keep(x) && also(x))
    ensures Filter(Filter(s, keep), also) == Filter(s, both)
  {
    if s != [] {
      var x, t := s[0], s[1..];
      FilterTwice(t, keep, also, both);
      assert x in s && s == [x] + t;
      FilterCons(x, t, keep);
      FilterCons(x, t, both);
      FilterCons(x, Filter(t, keep), also);
      hide Filter;
      assert [] + Filter(t, keep) == Filter(t, keep);
    }
  }

  lemma {:induction false} FilterSnoc<T(!new)>(s: seq<T>, x: T, keep: T -> bool)
    ensures Filter(s + [x], keep) == Filter(s, keep) + if keep(x) then [x] else []
  {
    if s != [] {
      assert (s + [x])[1..] == s[1..] + [x];
      FilterSnoc(s[1..], x, keep);
    }
  }

  ghost predicate Distinct<T(!new)>(s: seq<T>) { forall i, j :: 0 <= i < j < |s| ==> s[i] != s[j] }

  /** A condition that drops exactly the rows already read leaves the others. */
  lemma {:induction false} FilterBeyond<T(!new)>(s: seq<T>, keep: T -> bool, keep2: T -> bool, read: seq<T>, rest: seq<T>)
    requires Distinct(s)
    requires Filter(s, keep) == read + rest
    requires forall x :: x in s ==> (keep2(x) <==> keep(x) && x !in read)
    ensures Filter(s, keep2) == rest
  {
    if read == [] {
      assert read + rest == rest;
      FilterCongruence(s, keep, keep2);
    } else if s != [] {
      var t := s[1..];
      assert Distinct(t) && s[0] !in t && s[0] in s;
      assert forall x :: x in t ==> x in s;
      if keep(s[0]) {
        assert s[0] == (read + rest)[0] == read[0];
        assert Filter(t, keep) == (read + rest)[1..] == read[1..] + rest;
        assert read == [read[0]] + read[1..];
        FilterBeyond(t, keep, keep2, read[1..], rest);
      } else {
        FilterBeyond(t, keep, keep2, read, rest);
      }
    }
  }

  /** The page query. Rows at or before the cursor row are gone, and so are rows that left the
      table (`keep2` against `keep`) among those already read: the query reads on exactly
      where the unpaged scan would. */
  lemma NextPage<T(!new)>(s: seq<T>, keep: T -> bool, less: (T, T) -> bool, query: T -> bool, k: nat)
    requires Sorted(s, less)
    requires 0 < k <= |Filter(s, keep)|
    requires var f := Filter(s, keep);
             forall x :: x in s ==>
               && (query(x) ==> keep(x) && less(f[k - 1], x))
               && (keep(x) && less(f[k - 1], x) && x !in f[..k] ==> query(x))
    ensures Filter(s, query) == Filter(s, keep)[k..]
  {
    hide Filter;
    var f := Filter(s, keep);
    FilterSorted(s, keep, less);
    forall x | x in s ensures query(x) <==> keep(x) && x !in f[..k] {
      if x in f[..k] {
        var i :| 0 <= i < k && f[i] == x;
        assert !less(f[k - 1], f[i]);
      } else if keep(x) {
        var i :| 0 <= i < |f| && f[i] == x;
        assert forall j :: 0 <= j < k ==> f[..k][j] == f[j];
        assert less(f[k - 1], f[i]);
      }
    }
    FilterBeyond(s, keep, query, f[..k], f[k..]);
  }

  /** How many of n rows a scan reads when the queries that `fails` marks fail and end it. */
  function Reached(n: nat, fails: nat -> bool, page: nat): (r: nat)
    ensures r <= n
  {
    if fails(page) then 0
    else if n < PAGE_SIZE then n
    else PAGE_SIZE + Reached(n - PAGE_SIZE, fails, page + 1)
  }

  lemma ReachedNext(n: nat, fails: nat -> bool, page: nat)
    ensures Reached(n, fails, page)
            == if fails(page) then 0 else if n < PAGE_SIZE then n else PAGE_SIZE + Reached(n - PAGE_SIZE, fails, page + 1)
  {
  }

  lemma {:induction false} ReachedAll(n: nat, fails: nat -> bool, page: nat)
    requires forall p :: page <= p <= page + n / PAGE_SIZE ==> !fails(p)
    ensures Reached(n, fails, page) == n
  {
    if n >= PAGE_SIZE { ReachedAll(n - PAGE_SIZE, fails, page + 1); }
  }

  /** A failing query costs the rows from its page on and none before. */
  lemma {:induction false} ReachedUpTo(n: nat, fails: nat -> bool, page: nat, failing: nat)
    requires fails(page + failing)
    requires forall p :: page <= p < page + failing ==> !fails(p)
    ensures Reached(n, fails, page) == if n <= PAGE_SIZE * failing then n else PAGE_SIZE * failing
  {
    if failing > 0 && n >= PAGE_SIZE {
      assert !fails(page);
      ReachedUpTo(n - PAGE_SIZE, fails, page + 1, failing - 1);
    }
  }

  // ---- Tables keyed by id ----

  predicate Has<T>(rows: seq<T>, key: T -> Uuid, id: Uuid) { exists i :: 0 <= i < |rows| && key(rows[i]) == id }

  lemma HasSnoc<T>(rows: seq<T>, row: T, key: T -> Uuid)
    ensures forall id :: Has(rows + [row], key, id) <==> Has(rows, key, id) || id == key(row)
  {
    forall id ensures Has(rows + [row], key, id) <==> Has(rows, key, id) || id == key(row) {
      var more := rows + [row];
      assert more[|rows|] == row;
      if Has(rows, key, id) {
        var i :| 0 <= i < |rows| && key(rows[i]) == id;
        assert more[i] == rows[i];
      }
    }
  }

  function Insert<T>(rows: seq<T>, r: T, less: (T, T) -> bool): seq<T> {
    if rows == [] || less(r, rows[0]) then [r] + rows else [rows[0]] + Insert(rows[1..], r, less)
  }

  /** Inserting a new row keeps a table ordered and adds that row only. */
  lemma {:induction false} InsertKeeps<T(!new)>(rows: seq<T>, r: T, less: (T, T) -> bool)
    requires Sorted(rows, less)
    requires forall x, y, z :: less(x, y) && less(y, z) ==> less(x, z)
    requires !less(r, r) && forall x :: x in rows ==> less(r, x) != less(x, r)
    ensures Sorted(Insert(rows, r, less), less)
    ensures forall x :: x in Insert(rows, r, less) <==> x == r || x in rows
  {
    if rows != [] {
      var first, tail := rows[0], rows[1..];
      assert first in rows && rows == [first] + tail;
      if less(r, first) {
        forall i | 0 <= i < |rows| ensures less(r, rows[i]) && !less(rows[i], r) {
          assert rows[i] in rows;
        }
      } else {
        InsertKeeps(tail, r, less);
        forall x | x in Insert(tail, r, less) ensures less(first, x) && !less(x, first) {
          if x != r { var j :| 0 <= j < |tail| && tail[j] == x; assert less(rows[0], rows[j + 1]); }
        }
      }
    }
  }
}
