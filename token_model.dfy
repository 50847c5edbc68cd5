/** The verification-token and refresh-token collections
    (src/models/verificationtoken.model.ts, src/models/refreshtoken.model.ts): row shapes,
    the unique token index, creation as the database performs it, the deletions the
    handlers issue, and the TTL index that removes expired rows. */
module TokenModel {
  import opened Wrappers
  import opened Crypto
  import opened Tables

  /** A verification-token row: the user it verifies, the token value, the expiry (ms). */
  datatype VerificationTokenRow = VerificationTokenRow(user: UserId, token: string, expiresAt: int)

  /** A refresh-token row: the user it belongs to, the token value, the expiry (ms). */
  datatype RefreshTokenRow = RefreshTokenRow(user: UserId, token: string, expiresAt: int)

  /** Verification tokens expire 15 minutes after issue. */
  const VerificationTtlMs: int := 15 * 60 * 1000

  /** Message of the error a row without its required token raises. */
  const TokenRequired: string := "Path `token` is required."

  // ------------------------------------------------------------ verification tokens

  /** The verification collection, keyed by token value: the unique index on `token`
      makes a lookup by token yield at most one row. */
  type VerificationTable = map<string, VerificationTokenRow>

  /** The schema's required checks: `user` and `expiresAt` are present by their types, the
      token must be a non-empty string. */
  predicate VerificationRowValid(row: VerificationTokenRow) {
    row.token != ""
  }

  ghost predicate VerificationTableValid(t: VerificationTable) {
    forall k :: k in t ==> t[k].token == k && VerificationRowValid(t[k])
  }

  /** VerificationToken.create(row): refused by validation or by the unique index. */
  function CreateVerification(t: VerificationTable, row: VerificationTokenRow): (r: Result<VerificationTable, string>)
    ensures r.Ok? <==> VerificationRowValid(row) && row.token !in t
    ensures r.Ok? ==> r.value == t[row.token := row] && r.value.Keys == t.Keys + {row.token}
    ensures VerificationTableValid(t) && r.Ok? ==> VerificationTableValid(r.value)
  {
    if !VerificationRowValid(row) then Err(TokenRequired)
    else if row.token in t then Err(DuplicateKey)
    else Ok(t[row.token := row])
  }

  // ------------------------------------------------------------ refresh tokens

  /** The refresh collection in natural order. The `user` field carries no unique index,
      so the collection may hold several rows for one user. */
  type RefreshTable = seq<RefreshTokenRow>

  predicate RefreshRowValid(row: RefreshTokenRow) {
    row.token != ""
  }

  /** The unique index on `token`. */
  ghost predicate TokensDistinct(rows: RefreshTable) {
    forall i, j :: 0 <= i < j < |rows| ==> rows[i].token != rows[j].token
  }

  ghost predicate RefreshTableValid(rows: RefreshTable) {
    TokensDistinct(rows) && forall k :: 0 <= k < |rows| ==> RefreshRowValid(rows[k])
  }

  predicate HasToken(rows: RefreshTable, token: string) {
    exists k :: 0 <= k < |rows| && rows[k].token == token
  }

  /** The rows of one user, in natural order. */
  function RowsOf(rows: RefreshTable, user: UserId): (r: RefreshTable)
    ensures forall x :: x in r <==> x in rows && x.user == user
    ensures |r| <= |rows|
  {
    if rows == [] then []
    else (if rows[0].user == user then [rows[0]] else []) + RowsOf(rows[1..], user)
  }

  /** RefreshToken.create(row): refused by validation or by the unique index; otherwise
      appended. */
  function CreateRefresh(rows: RefreshTable, row: RefreshTokenRow): (r: Result<RefreshTable, string>)
    ensures r.Ok? <==> RefreshRowValid(row) && !HasToken(rows, row.token)
    ensures r.Ok? ==> r.value == rows + [row]
    ensures RefreshTableValid(rows) && r.Ok? ==> RefreshTableValid(r.value)
  {
    if !RefreshRowValid(row) then Err(TokenRequired)
    else if HasToken(rows, row.token) then Err(DuplicateKey)
    else Ok(rows + [row])
  }

  lemma RowsOfAppend(rows: RefreshTable, row: RefreshTokenRow, user: UserId)
    ensures RowsOf(rows + [row], user) == RowsOf(rows, user) + (if row.user == user then [row] else [])
    decreases |rows|
  {
    if rows == [] {
      assert [row][1..] == [];
    } else {
      assert (rows + [row])[1..] == rows[1..] + [row];
      RowsOfAppend(rows[1..], row, user);
    }
  }

  /** Dropping the first row keeps the tokens distinct. */
  lemma TailDistinct(rows: RefreshTable)
    requires rows != [] && TokensDistinct(rows)
    ensures TokensDistinct(rows[1..])
  {
    forall i, j | 0 <= i < j < |rows| - 1 ensures rows[1..][i].token != rows[1..][j].token {
      assert rows[1..][i] == rows[i + 1] && rows[1..][j] == rows[j + 1];
    }
  }

  /** Putting a row whose token is new in front of distinct rows keeps them distinct. */
  lemma ConsDistinct(row: RefreshTokenRow, rest: RefreshTable)
    requires TokensDistinct(rest) && !HasToken(rest, row.token)
    ensures TokensDistinct([row] + rest)
  {
    var r := [row] + rest;
    forall i, j | 0 <= i < j < |r| ensures r[i].token != r[j].token {
      assert r[j] == rest[j - 1];
      if i > 0 { assert r[i] == rest[i - 1]; }
    }
  }

  lemma HasTokenTail(rows: RefreshTable, token: string)
    requires rows != [] && rows[0].token != token
    ensures HasToken(rows, token) <==> HasToken(rows[1..], token)
  {
    if HasToken(rows, token) {
      var k :| 0 <= k < |rows| && rows[k].token == token;
      assert rows[1..][k - 1] == rows[k];
    }
    if HasToken(rows[1..], token) {
      var k :| 0 <= k < |rows[1..]| && rows[1..][k].token == token;
      assert rows[k + 1] == rows[1..][k];
    }
  }

  /** A row of distinct rows has no twin among the others. */
  lemma HeadTokenUnique(rows: RefreshTable)
    requires rows != [] && TokensDistinct(rows)
    ensures !HasToken(rows[1..], rows[0].token)
  {
    forall k | 0 <= k < |rows| - 1 ensures rows[1..][k].token != rows[0].token {
      assert rows[1..][k] == rows[k + 1];
    }
  }

  lemma HasTokenSubset(r: RefreshTable, rows: RefreshTable, token: string)
    requires forall x :: x in r ==> x in rows
    requires !HasToken(rows, token)
    ensures !HasToken(r, token)
  {
    forall k | 0 <= k < |r| ensures r[k].token != token {
      assert r[k] in rows;
    }
  }

  /** RefreshToken.deleteOne({ user }): removes the first row of that user, if any. */
  function DeleteOneByUser(rows: RefreshTable, user: UserId): (r: RefreshTable)
    ensures forall x :: x in r ==> x in rows
    ensures |r| == if RowsOf(rows, user) == [] then |rows| else |rows| - 1
  {
    if rows == [] then []
    else if rows[0].user == user then rows[1..]
    else
      var rest := DeleteOneByUser(rows[1..], user);
      assert ([rows[0]] + rest)[1..] == rest;
      [rows[0]] + rest
  }

  /** deleteOne({ user }) removes exactly the user's first row: the user loses one row (if
      it had any), every other user keeps all of its rows, in order. */
  lemma {:induction false} DeleteOneByUserRows(rows: RefreshTable, user: UserId, v: UserId)
    ensures RowsOf(rows, user) == [] ==> DeleteOneByUser(rows, user) == rows
    ensures RowsOf(rows, user) != [] ==> RowsOf(DeleteOneByUser(rows, user), user) == RowsOf(rows, user)[1..]
    ensures v != user ==> RowsOf(DeleteOneByUser(rows, user), v) == RowsOf(rows, v)
  {
    if rows != [] && rows[0].user != user {
      var rest := DeleteOneByUser(rows[1..], user);
      DeleteOneByUserRows(rows[1..], user, v);
      assert ([rows[0]] + rest)[1..] == rest;
    }
  }

  /** deleteOne({ user }) keeps the unique token index satisfied. */
  lemma {:induction false} DeleteOneByUserValid(rows: RefreshTable, user: UserId)
    requires RefreshTableValid(rows)
    ensures RefreshTableValid(DeleteOneByUser(rows, user))
  {
    var r := DeleteOneByUser(rows, user);
    if rows != [] {
      TailDistinct(rows);
      if rows[0].user != user {
        var rest := DeleteOneByUser(rows[1..], user);
        DeleteOneByUserValid(rows[1..], user);
        HeadTokenUnique(rows);
        HasTokenSubset(rest, rows[1..], rows[0].token);
        ConsDistinct(rows[0], rest);
      }
    }
    forall k | 0 <= k < |r| ensures RefreshRowValid(r[k]) {
      assert r[k] in rows;
    }
  }

  /** RefreshToken.findOneAndDelete({ token }): removes the first row holding that token,
      if any. */
  function DeleteOneByToken(rows: RefreshTable, token: string): (r: RefreshTable)
    ensures forall x :: x in r ==> x in rows
    ensures |r| == if HasToken(rows, token) then |rows| - 1 else |rows|
  {
    if rows == [] then []
    else if rows[0].token == token then rows[1..]
    else
      var rest := DeleteOneByToken(rows[1..], token);
      HasTokenTail(rows, token);
      assert ([rows[0]] + rest)[1..] == rest;
      [rows[0]] + rest
  }

  /** findOneAndDelete({ token }) on a valid table: afterwards no row holds that token,
      every row with another token is still there, and the table stays valid. */
  lemma {:induction false} DeleteOneByTokenEffect(rows: RefreshTable, token: string)
    requires RefreshTableValid(rows)
    ensures !HasToken(DeleteOneByToken(rows, token), token)
    ensures forall x :: x in rows && x.token != token ==> x in DeleteOneByToken(rows, token)
    ensures RefreshTableValid(DeleteOneByToken(rows, token))
  {
    var r := DeleteOneByToken(rows, token);
    if rows != [] {
      TailDistinct(rows);
      assert RefreshTableValid(rows[1..]);
      if rows[0].token == token {
        HeadTokenUnique(rows);
        forall x | x in rows && x.token != token ensures x in r {
          var k :| 0 <= k < |rows| && rows[k] == x;
          assert rows[1..][k - 1] == x;
        }
      } else {
        var rest := DeleteOneByToken(rows[1..], token);
        DeleteOneByTokenEffect(rows[1..], token);
        assert r == [rows[0]] + rest;
        HeadTokenUnique(rows);
        HasTokenSubset(rest, rows[1..], rows[0].token);
        ConsDistinct(rows[0], rest);
        HasTokenTail(r, token);
        assert r[1..] == rest;
        forall x | x in rows && x.token != token ensures x in r {
          if x != rows[0] {
            var k :| 0 <= k < |rows| && rows[k] == x;
            assert rows[1..][k - 1] == x;
          }
        }
      }
    }
    forall k | 0 <= k < |r| ensures RefreshRowValid(r[k]) {
      assert r[k] in rows;
    }
  }

  /** findOneAndDelete({ token }) with a token no row holds changes nothing. */
  lemma {:induction false} DeleteOneByTokenAbsent(rows: RefreshTable, token: string)
    requires !HasToken(rows, token)
    ensures DeleteOneByToken(rows, token) == rows
  {
    if rows != [] {
      assert rows[0].token != token;
      HasTokenTail(rows, token);
      DeleteOneByTokenAbsent(rows[1..], token);
      assert [rows[0]] + rows[1..] == rows;
    }
  }

  // ------------------------------------------------------------ TTL index

  /** The TTL index with expireAfterSeconds 0 may remove a row once the clock has reached
      its expiresAt, and not before. */
  predicate TtlMayRemove(expiresAt: int, now: int) {
    expiresAt <= now
  }

  /** One pass of the TTL monitor over the verification collection: of the rows it
      picks, it deletes those that have expired. */
  function SweepVerification(t: VerificationTable, now: int, picked: set<string>): (r: VerificationTable)
    ensures forall k :: k in r <==> k in t && !(k in picked && TtlMayRemove(t[k].expiresAt, now))
    ensures forall k :: k in r ==> r[k] == t[k]
    ensures forall k :: k in t && !TtlMayRemove(t[k].expiresAt, now) ==> k in r
  {
    map k | k in t && !(k in picked && TtlMayRemove(t[k].expiresAt, now)) :: t[k]
  }

  /** One pass of the TTL monitor over the refresh collection. */
  function SweepRefresh(rows: RefreshTable, now: int, picked: set<string>): (r: RefreshTable)
    ensures forall x :: x in r <==> x in rows && !(x.token in picked && TtlMayRemove(x.expiresAt, now))
    ensures |r| <= |rows|
  {
    if rows == [] then []
    else
      var rest := SweepRefresh(rows[1..], now, picked);
      if rows[0].token in picked && TtlMayRemove(rows[0].expiresAt, now) then rest
      else [rows[0]] + rest
  }

  /** A sweep keeps both collections valid. */
  lemma {:induction false} SweepValid(t: VerificationTable, rows: RefreshTable, now: int, picked: set<string>)
    requires VerificationTableValid(t) && RefreshTableValid(rows)
    ensures VerificationTableValid(SweepVerification(t, now, picked))
    ensures RefreshTableValid(SweepRefresh(rows, now, picked))
  {
    var r := SweepRefresh(rows, now, picked);
    if rows != [] {
      TailDistinct(rows);
      assert RefreshTableValid(rows[1..]);
      var rest := SweepRefresh(rows[1..], now, picked);
      SweepValid(t, rows[1..], now, picked);
      if !(rows[0].token in picked && TtlMayRemove(rows[0].expiresAt, now)) {
        HeadTokenUnique(rows);
        HasTokenSubset(rest, rows[1..], rows[0].token);
        ConsDistinct(rows[0], rest);
      }
    }
    forall k | 0 <= k < |r| ensures RefreshRowValid(r[k]) {
      assert r[k] in rows;
    }
  }
}
