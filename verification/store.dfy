/**
 The `users` table. The model keeps rows in insertion order and lets a query
 `where({ username }).first()` return the first matching row. It assumes the table
 enforces uniqueness of `username` and of `user_id` (the schema is not part of this
 model); an insert that would break either is refused as a constraint violation.
 */
module UserStore {
  import opened Options
  import opened Password

  datatype Row = Row(userId: nat, username: string, password: PasswordHash)

  type Table = seq<Row>

  predicate HasUsername(t: Table, u: string)
  {
    exists i :: 0 <= i < |t| && t[i].username == u
  }

  predicate HasId(t: Table, id: nat)
  {
    exists i :: 0 <= i < |t| && t[i].userId == id
  }

  /** Both uniqueness constraints hold. */
  predicate WellFormed(t: Table)
  {
    forall i, j :: 0 <= i < j < |t| ==> t[i].username != t[j].username && t[i].userId != t[j].userId
  }

  /** `db('users').where({ username }).first()`: the first row with that username. */
  function FindByUsername(t: Table, u: string): (r: Option<Row>)
    ensures r.Some? <==> HasUsername(t, u)
    ensures r.Some? ==> r.value.username == u
    ensures r.Some? ==> exists k :: 0 <= k < |t| && t[k] == r.value && !HasUsername(t[..k], u)
  {
    if |t| == 0 then None
    else if t[0].username == u then
      assert t[..0] == [];
      Some(t[0])
    else
      var r := FindByUsername(t[1..], u);
      assert HasUsername(t[1..], u) ==> HasUsername(t, u) by {
        if HasUsername(t[1..], u) {
          var i :| 0 <= i < |t[1..]| && t[1..][i].username == u;
          assert t[i + 1].username == u;
        }
      }
      assert HasUsername(t, u) ==> HasUsername(t[1..], u) by {
        if HasUsername(t, u) {
          var i :| 0 <= i < |t| && t[i].username == u;
          assert i != 0;
          assert t[1..][i - 1].username == u;
        }
      }
      if r.Some? then
        var k :| 0 <= k < |t[1..]| && t[1..][k] == r.value && !HasUsername(t[1..][..k], u);
        assert t[k + 1] == r.value;
        var prefix := t[..k + 1];
        forall i | 0 < i < |prefix|
          ensures prefix[i].username != u
        {
          assert prefix[i] == t[1..][..k][i - 1];
        }
        r
      else
        r
  }

  /** `db('users').where('user_id', id).first()`: the first row with that id. */
  function FindById(t: Table, id: nat): (r: Option<Row>)
    ensures r.Some? <==> HasId(t, id)
    ensures r.Some? ==> r.value.userId == id && r.value in t
  {
    if |t| == 0 then None
    else if t[0].userId == id then Some(t[0])
    else
      var r := FindById(t[1..], id);
      assert HasId(t[1..], id) ==> HasId(t, id) by {
        if HasId(t[1..], id) {
          var i :| 0 <= i < |t[1..]| && t[1..][i].userId == id;
          assert t[i + 1].userId == id;
        }
      }
      assert HasId(t, id) ==> HasId(t[1..], id) by {
        if HasId(t, id) {
          var i :| 0 <= i < |t| && t[i].userId == id;
          assert i != 0;
          assert t[1..][i - 1].userId == id;
        }
      }
      r
  }

  /**
   `db('users').insert(row)`: appends the row, or refuses it (None) when it would break a
   uniqueness constraint.
   */
  function Insert(t: Table, row: Row): (r: Option<Table>)
    ensures r.None? <==> HasUsername(t, row.username) || HasId(t, row.userId)
    ensures r.Some? ==> |r.value| == |t| + 1 && r.value[..|t|] == t && r.value[|t|] == row
    ensures r.Some? && WellFormed(t) ==> WellFormed(r.value)
  {
    if HasUsername(t, row.username) || HasId(t, row.userId) then None
    else
      var t' := t + [row];
      assert t'[..|t|] == t;
      Some(t')
  }

  /** Appending a row changes no other username's lookup. */
  lemma {:induction false} FindByUsernameAppend(t: Table, row: Row, u: string)
    ensures FindByUsername(t + [row], u)
         == if HasUsername(t, u) then FindByUsername(t, u)
            else if row.username == u then Some(row) else None
  {
    if |t| == 0 {
      assert t + [row] == [row];
      assert [row][1..] == [];
    } else {
      assert (t + [row])[1..] == t[1..] + [row];
      FindByUsernameAppend(t[1..], row, u);
      if t[0].username != u {
        assert HasUsername(t, u) <==> HasUsername(t[1..], u);
      }
    }
  }

  /** After an accepted insert, the new row is the one found both by username and by id. */
  lemma InsertedRowIsFound(t: Table, row: Row)
    requires Insert(t, row).Some?
    ensures FindByUsername(Insert(t, row).value, row.username) == Some(row)
    ensures FindById(Insert(t, row).value, row.userId) == Some(row)
  {
  }

  lemma {:induction false} FindByIdAppend(t: Table, row: Row)
    requires !HasId(t, row.userId)
    ensures FindById(t + [row], row.userId) == Some(row)
  {
    if |t| == 0 {
      assert t + [row] == [row];
    } else {
      assert t[0].userId != row.userId;
      assert (t + [row])[1..] == t[1..] + [row];
      forall i | 0 <= i < |t[1..]|
        ensures t[1..][i].userId != row.userId
      {
        assert t[1..][i] == t[i + 1];
      }
      FindByIdAppend(t[1..], row);
    }
  }

  /** In a well-formed table the row found is the only row with that username. */
  lemma FindByUsernameUnique(t: Table, u: string, i: nat)
    requires WellFormed(t)
    requires i < |t| && t[i].username == u
    ensures FindByUsername(t, u) == Some(t[i])
  {
  }
}
