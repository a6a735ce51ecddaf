/**
 * Generic queries over a table held as a sequence of rows: the parts of
 * Prisma's `findUnique`, `findFirst` and `findMany` that the handlers rely on,
 * and the unique constraints of the schema.
 */
module Queries {
  import opened Wrappers

  /** Some row of the table has key `k`. */
  ghost predicate Has<T, K>(rows: seq<T>, key: T -> K, k: K)
  {
    exists i :: 0 <= i < |rows| && key(rows[i]) == k
  }

  /** No two rows share a key: a unique constraint on the column `key`. */
  ghost predicate UniqueBy<T, K>(rows: seq<T>, key: T -> K)
  {
    forall i, j :: 0 <= i < j < |rows| ==> key(rows[i]) != key(rows[j])
  }

  /** The first row whose key is `k`, or None when there is none. */
  function FindBy<T, K(==)>(rows: seq<T>, key: T -> K, k: K): (r: Option<T>)
    ensures r.None? <==> !Has(rows, key, k)
    ensures r.Some? ==> key(r.value) == k
    ensures r.Some? ==> exists i :: 0 <= i < |rows| && rows[i] == r.value &&
                          forall j :: 0 <= j < i ==> key(rows[j]) != k
  {
    if rows == [] then None
    else if key(rows[0]) == k then Some(rows[0])
    else
      var r := FindBy(rows[1..], key, k);
      assert forall j :: 0 < j < |rows| ==> rows[j] == rows[1..][j - 1];
      r
  }

  /** Under a unique constraint the lookup finds the one row with that key. */
  lemma FindByUnique<T, K>(rows: seq<T>, key: T -> K, i: nat)
    requires UniqueBy(rows, key) && i < |rows|
    ensures FindBy(rows, key, key(rows[i])) == Some(rows[i])
  {
    var r := FindBy(rows, key, key(rows[i]));
    var p :| 0 <= p < |rows| && rows[p] == r.value &&
             forall j :: 0 <= j < p ==> key(rows[j]) != key(rows[i]);
    assert p == i;
  }

  /** Under a unique constraint a row holding key `k` is the only such row. */
  lemma OnlyRowWithKey<T, K>(rows: seq<T>, key: T -> K, x: T)
    requires UniqueBy(rows, key) && x in rows
    ensures forall i :: 0 <= i < |rows| && key(rows[i]) == key(x) ==> rows[i] == x
  {
    var p :| 0 <= p < |rows| && rows[p] == x;
    forall i | 0 <= i < |rows| && key(rows[i]) == key(x) ensures rows[i] == x {
      assert key(rows[i]) == key(rows[p]);
    }
  }

  /** Appending a row is seen by `Has` exactly when that row carries the key. */
  lemma HasAppend<T, K>(rows: seq<T>, x: T, key: T -> K, k: K)
    ensures Has(rows + [x], key, k) <==> Has(rows, key, k) || key(x) == k
  {
    if Has(rows, key, k) {
      var i :| 0 <= i < |rows| && key(rows[i]) == k;
      assert (rows + [x])[i] == rows[i];
    }
    if key(x) == k {
      assert (rows + [x])[|rows|] == x;
    }
    if Has(rows + [x], key, k) {
      var i :| 0 <= i < |rows + [x]| && key((rows + [x])[i]) == k;
      if i < |rows| { assert (rows + [x])[i] == rows[i]; }
    }
  }

  /** A lookup after an append finds an older row first, and the new row otherwise. */
  lemma {:induction false} FindByAppend<T, K>(rows: seq<T>, x: T, key: T -> K, k: K)
    ensures FindBy(rows + [x], key, k) ==
              if Has(rows, key, k) then FindBy(rows, key, k)
              else if key(x) == k then Some(x) else None
  {
    if rows == [] {
      assert [] + [x] == [x];
      assert [x][1..] == [];
    } else {
      assert (rows + [x])[0] == rows[0];
      assert (rows + [x])[1..] == rows[1..] + [x];
      FindByAppend(rows[1..], x, key, k);
      if key(rows[0]) != k {
        assert Has(rows, key, k) <==> Has(rows[1..], key, k) by {
          if Has(rows, key, k) {
            var i :| 0 <= i < |rows| && key(rows[i]) == k;
            assert rows[1..][i - 1] == rows[i];
          }
          if Has(rows[1..], key, k) {
            var i :| 0 <= i < |rows[1..]| && key(rows[1..][i]) == k;
            assert rows[i + 1] == rows[1..][i];
          }
        }
      } else {
        assert Has(rows, key, k) by { assert key(rows[0]) == k; }
      }
    }
  }

  /** A unique key stays unique when the appended row's key is new. */
  lemma UniqueByAppend<T, K>(rows: seq<T>, x: T, key: T -> K)
    requires UniqueBy(rows, key) && !Has(rows, key, key(x))
    ensures UniqueBy(rows + [x], key)
  {
    var s := rows + [x];
    forall i, j | 0 <= i < j < |s| ensures key(s[i]) != key(s[j]) {
      assert s[i] == rows[i];
      if j < |rows| { assert s[j] == rows[j]; }
    }
  }

  /** The rows satisfying `p`, in table order: a `where` filter. */
  function Where<T(!new)>(rows: seq<T>, p: T -> bool): (r: seq<T>)
    ensures forall x :: multiset(r)[x] == if p(x) then multiset(rows)[x] else 0
  {
    if rows == [] then []
    else
      var rest := Where(rows[1..], p);
      assert rows == [rows[0]] + rows[1..];
      assert multiset(rows) == multiset{rows[0]} + multiset(rows[1..]);
      (if p(rows[0]) then [rows[0]] else []) + rest
  }

  /** A value counted at most once cannot sit at two positions. */
  lemma DistinctWhenCountedOnce<T>(s: seq<T>, i: nat, j: nat)
    requires i < j < |s| && multiset(s)[s[j]] <= 1
    ensures s[i] != s[j]
  {
    assert s == s[..j] + [s[j]] + s[j + 1..];
    assert multiset(s)[s[j]] == multiset(s[..j])[s[j]] + 1 + multiset(s[j + 1..])[s[j]];
    assert s[..j][i] == s[i];
  }

  /** Under a unique key every row occurs at most once. */
  lemma {:induction false} UniqueByCountsOnce<T, K>(rows: seq<T>, key: T -> K, x: T)
    requires UniqueBy(rows, key)
    ensures multiset(rows)[x] <= 1
  {
    if rows != [] {
      var rest := rows[1..];
      assert UniqueBy(rest, key) by {
        forall i, j | 0 <= i < j < |rest| ensures key(rest[i]) != key(rest[j]) {
          assert rest[i] == rows[i + 1] && rest[j] == rows[j + 1];
        }
      }
      UniqueByCountsOnce(rest, key, x);
      assert rows == [rows[0]] + rest;
      forall j | 0 <= j < |rest| ensures key(rest[j]) != key(rows[0]) {
        assert rest[j] == rows[j + 1];
      }
      assert rows[0] !in rest;
    }
  }

  /** A unique key stays unique in any selection of the rows, reordered or not. */
  lemma UniqueBySubMultiset<T, K>(a: seq<T>, b: seq<T>, key: T -> K)
    requires multiset(b) <= multiset(a) && UniqueBy(a, key)
    ensures UniqueBy(b, key)
  {
    forall i, j | 0 <= i < j < |b| ensures key(b[i]) != key(b[j]) {
      UniqueByCountsOnce(a, key, b[j]);
      DistinctWhenCountedOnce(b, i, j);
      assert b[i] in multiset(a) && b[j] in multiset(a);
      var p :| 0 <= p < |a| && a[p] == b[i];
      var q :| 0 <= q < |a| && a[q] == b[j];
      assert p != q;
    }
  }
}
