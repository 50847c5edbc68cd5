/** Collections as sequences of documents in natural order, with the unique indexes the
    schemas declare. */
module Tables {
  import opened Wrappers

  /** The error MongoDB reports when an insert or update would break a unique index. */
  const DuplicateKey: string := "E11000 duplicate key error"

  /** A unique index on `key`: no two documents share a key. */
  ghost predicate UniqueBy<T, K>(rows: seq<T>, key: T -> K) {
    forall i, j :: 0 <= i < j < |rows| ==> key(rows[i]) != key(rows[j])
  }

  predicate KeyTaken<T, K(==)>(rows: seq<T>, key: T -> K, k: K) {
    exists i :: 0 <= i < |rows| && key(rows[i]) == k
  }

  /** Inserting a document under a unique index on `key`. */
  function Insert<T, K(==)>(rows: seq<T>, key: T -> K, row: T): (r: Result<seq<T>, string>)
    ensures r.Ok? <==> !KeyTaken(rows, key, key(row))
    ensures r.Ok? ==> r.value == rows + [row]
    ensures r.Err? ==> r.error == DuplicateKey
  {
    if KeyTaken(rows, key, key(row)) then Err(DuplicateKey) else Ok(rows + [row])
  }

  /** An insert the index accepts keeps the index satisfied, and the inserted document is
      the one found under its key. */
  lemma {:induction false} InsertKeepsUnique<T, K>(rows: seq<T>, key: T -> K, row: T)
    requires UniqueBy(rows, key) && Insert(rows, key, row).Ok?
    ensures UniqueBy(Insert(rows, key, row).value, key)
    ensures FindBy(Insert(rows, key, row).value, key, key(row)) == Some(row)
  {
    var r := rows + [row];
    forall i, j | 0 <= i < j < |r| ensures key(r[i]) != key(r[j]) {
      if j == |rows| {
        assert r[i] == rows[i];
      } else {
        assert r[i] == rows[i] && r[j] == rows[j];
      }
    }
    FindByAppend(rows, key, row);
  }

  /** findOne({ key: k }): the first document with that key. */
  function FindBy<T, K(==)>(rows: seq<T>, key: T -> K, k: K): (r: Option<T>)
    ensures r.Some? <==> KeyTaken(rows, key, k)
    ensures r.Some? ==> r.value in rows && key(r.value) == k
  {
    if rows == [] then None
    else if key(rows[0]) == k then Some(rows[0])
    else
      var r := FindBy(rows[1..], key, k);
      assert KeyTaken(rows, key, k) ==> rows[0] != rows[0] || KeyTaken(rows[1..], key, k) by {
        if KeyTaken(rows, key, k) {
          var i :| 0 <= i < |rows| && key(rows[i]) == k;
          assert i > 0 && rows[1..][i - 1] == rows[i];
        }
      }
      assert KeyTaken(rows[1..], key, k) ==> KeyTaken(rows, key, k) by {
        if KeyTaken(rows[1..], key, k) {
          var i :| 0 <= i < |rows[1..]| && key(rows[1..][i]) == k;
          assert rows[i + 1] == rows[1..][i];
        }
      }
      r
  }

  /** The position of the first document with key k. */
  function IndexBy<T, K(==)>(rows: seq<T>, key: T -> K, k: K): (r: Option<nat>)
    ensures r.Some? <==> KeyTaken(rows, key, k)
    ensures r.Some? ==> r.value < |rows| && key(rows[r.value]) == k
    ensures r.Some? ==> forall j :: 0 <= j < r.value ==> key(rows[j]) != k
  {
    if rows == [] then None
    else if key(rows[0]) == k then Some(0)
    else
      var r := IndexBy(rows[1..], key, k);
      assert KeyTaken(rows, key, k) ==> KeyTaken(rows[1..], key, k) by {
        if KeyTaken(rows, key, k) {
          var i :| 0 <= i < |rows| && key(rows[i]) == k;
          assert i > 0 && rows[1..][i - 1] == rows[i];
        }
      }
      match r
      case None => None
      case Some(i) =>
        assert rows[i + 1] == rows[1..][i];
        assert forall j :: 1 <= j < i + 1 ==> rows[j] == rows[1..][j - 1];
        Some(i + 1)
  }

  /** Under a unique index the position of a document's key is that document's own. */
  lemma {:induction false} IndexByUnique<T, K>(rows: seq<T>, key: T -> K, i: nat)
    requires UniqueBy(rows, key) && i < |rows|
    ensures IndexBy(rows, key, key(rows[i])) == Some(i)
  {
    assert KeyTaken(rows, key, key(rows[i]));
    var r := IndexBy(rows, key, key(rows[i])).value;
    assert !(i < r);
    assert !(r < i);
  }

  lemma {:induction false} FindByAppend<T, K>(rows: seq<T>, key: T -> K, row: T)
    requires !KeyTaken(rows, key, key(row))
    ensures FindBy(rows + [row], key, key(row)) == Some(row)
  {
    if rows == [] {
    } else {
      assert (rows + [row])[1..] == rows[1..] + [row];
      assert key(rows[0]) != key(row);
      assert !KeyTaken(rows[1..], key, key(row)) by {
        forall i | 0 <= i < |rows[1..]| ensures key(rows[1..][i]) != key(row) {
          assert rows[1..][i] == rows[i + 1];
        }
      }
      FindByAppend(rows[1..], key, row);
    }
  }

  /** findOneAndDelete({ key: k }): removes the first document with that key. */
  function DeleteBy<T, K(==)>(rows: seq<T>, key: T -> K, k: K): (r: seq<T>)
    ensures forall x :: x in r ==> x in rows
    ensures |r| == if KeyTaken(rows, key, k) then |rows| - 1 else |rows|
  {
    if rows == [] then []
    else if key(rows[0]) == k then rows[1..]
    else
      var rest := DeleteBy(rows[1..], key, k);
      assert KeyTaken(rows, key, k) <==> KeyTaken(rows[1..], key, k) by {
        if KeyTaken(rows, key, k) {
          var i :| 0 <= i < |rows| && key(rows[i]) == k;
          assert i > 0 && rows[1..][i - 1] == rows[i];
        }
        if KeyTaken(rows[1..], key, k) {
          var i :| 0 <= i < |rows[1..]| && key(rows[1..][i]) == k;
          assert rows[i + 1] == rows[1..][i];
        }
      }
      [rows[0]] + rest
  }

  /** Under a unique index, deleting by key removes exactly the document with that key:
      none is left, every other document stays, in order, and the index still holds. */
  lemma DeleteByEffect<T(!new), K>(rows: seq<T>, key: T -> K, k: K)
    requires UniqueBy(rows, key)
    ensures DeleteBy(rows, key, k) == Without(rows, key, k)
    ensures !KeyTaken(DeleteBy(rows, key, k), key, k)
    ensures UniqueBy(DeleteBy(rows, key, k), key)
  {
    DeleteByIsWithout(rows, key, k);
    WithoutUnique(rows, key, k, key);
    var r := Without(rows, key, k);
    forall i | 0 <= i < |r| ensures key(r[i]) != k {
      assert r[i] in r;
    }
  }

  lemma TailUnique<T, K>(rows: seq<T>, key: T -> K)
    requires rows != [] && UniqueBy(rows, key)
    ensures UniqueBy(rows[1..], key)
    ensures forall x :: x in rows[1..] ==> key(x) != key(rows[0])
  {
    forall i, j | 0 <= i < j < |rows[1..]| ensures key(rows[1..][i]) != key(rows[1..][j]) {
      assert rows[1..][i] == rows[i + 1] && rows[1..][j] == rows[j + 1];
    }
    forall x | x in rows[1..] ensures key(x) != key(rows[0]) {
      var m :| 0 <= m < |rows[1..]| && rows[1..][m] == x;
      assert rows[m + 1] == x;
    }
  }

  lemma {:induction false} DeleteByIsWithout<T(!new), K>(rows: seq<T>, key: T -> K, k: K)
    requires UniqueBy(rows, key)
    ensures DeleteBy(rows, key, k) == Without(rows, key, k)
  {
    if rows != [] {
      TailUnique(rows, key);
      if key(rows[0]) == k {
        assert !KeyTaken(rows[1..], key, k) by {
          forall i | 0 <= i < |rows[1..]| ensures key(rows[1..][i]) != k {
            assert rows[1..][i] in rows[1..];
          }
        }
        WithoutAbsent(rows[1..], key, k);
      } else {
        DeleteByIsWithout(rows[1..], key, k);
      }
    }
  }

  /** Removing documents keeps any unique index satisfied, on `key` or on another key. */
  lemma {:induction false} WithoutUnique<T(!new), K, K2>(rows: seq<T>, key: T -> K, k: K, other: T -> K2)
    requires UniqueBy(rows, other)
    ensures UniqueBy(Without(rows, key, k), other)
  {
    if rows != [] {
      TailUnique(rows, other);
      WithoutUnique(rows[1..], key, k, other);
      var rest := Without(rows[1..], key, k);
      var r := Without(rows, key, k);
      if key(rows[0]) != k {
        assert r == [rows[0]] + rest;
        forall i, j | 0 <= i < j < |r| ensures other(r[i]) != other(r[j]) {
          assert r[j] == rest[j - 1] && rest[j - 1] in rest;
          if i > 0 {
            assert r[i] == rest[i - 1];
          }
        }
      } else {
        assert r == rest;
      }
    }
  }

  /** The documents whose key is not k, in order. */
  function Without<T(!new), K(==)>(rows: seq<T>, key: T -> K, k: K): (r: seq<T>)
    ensures forall x :: x in r <==> x in rows && key(x) != k
  {
    if rows == [] then []
    else (if key(rows[0]) == k then [] else [rows[0]]) + Without(rows[1..], key, k)
  }

  lemma {:induction false} WithoutAbsent<T(!new), K>(rows: seq<T>, key: T -> K, k: K)
    requires !KeyTaken(rows, key, k)
    ensures Without(rows, key, k) == rows
  {
    if rows != [] {
      assert key(rows[0]) != k;
      assert !KeyTaken(rows[1..], key, k) by {
        forall i | 0 <= i < |rows[1..]| ensures key(rows[1..][i]) != k {
          assert rows[1..][i] == rows[i + 1];
        }
      }
      WithoutAbsent(rows[1..], key, k);
      assert [rows[0]] + rows[1..] == rows;
    }
  }
}
