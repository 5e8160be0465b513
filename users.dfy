/**
 * The user records the Basic and Session authentication layers look up
 * (`User.search`, `User.get`). The record store itself (models/base.py) is
 * not part of this model: it is an in-memory table that is either loaded or
 * was never loaded (where the source raises `KeyError`).
 */
module Users {
  import opened Wrappers
  import Credentials

  datatype User = User(id: string, email: string, password: Credentials.Digest)

  datatype UserTable = Unloaded | Loaded(rows: seq<User>)

  /** The rows whose email is `email`, in table order. */
  function WithEmail(rows: seq<User>, email: string): (r: seq<User>)
    ensures forall u :: u in r <==> u in rows && u.email == email
    ensures r != [] ==> exists k :: 0 <= k < |rows| && rows[k] == r[0] && FirstWithEmailAt(rows, email, k)
  {
    if rows == [] then []
    else if rows[0].email == email then [rows[0]] + WithEmail(rows[1..], email)
    else
      var r := WithEmail(rows[1..], email);
      if r != [] then
        var k :| 0 <= k < |rows[1..]| && rows[1..][k] == r[0] && FirstWithEmailAt(rows[1..], email, k);
        assert FirstWithEmailAt(rows, email, k + 1);
        r
      else r
  }

  /** Row `k` is the first row with email `email`. */
  predicate FirstWithEmailAt(rows: seq<User>, email: string, k: int)
  {
    0 <= k < |rows| && rows[k].email == email && forall j :: 0 <= j < k ==> rows[j].email != email
  }

  /** `User.search({'email': email})`; None where the source raises `KeyError`. */
  function Search(table: UserTable, email: string): (r: Option<seq<User>>)
    ensures r.None? <==> table.Unloaded?
    ensures r.Some? ==> forall u :: u in r.value <==> u in table.rows && u.email == email
  {
    match table
    case Unloaded => None
    case Loaded(rows) => Some(WithEmail(rows, email))
  }

  /** The first row whose id is `id`. */
  function FindById(rows: seq<User>, id: string): (r: Option<User>)
    ensures r.Some? ==> r.value in rows && r.value.id == id
    ensures r.None? <==> forall u :: u in rows ==> u.id != id
  {
    if rows == [] then None
    else if rows[0].id == id then Some(rows[0])
    else FindById(rows[1..], id)
  }

  /** `User.get(id)`: the record with that id, None for a None id or an unknown one. */
  function Get(table: UserTable, id: Option<string>): (r: Option<User>)
    ensures r.Some? ==> table.Loaded? && id.Some? && r.value in table.rows && r.value.id == id.value
    ensures r.None? <==> table.Unloaded? || id.None? || forall u :: u in table.rows ==> u.id != id.value
  {
    if table.Unloaded? || id.None? then None else FindById(table.rows, id.value)
  }
}
