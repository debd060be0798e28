/** The `users` table of act.py and the three functions that touch it:
    `insert_user`, `check_user` and `get_users`. Passwords are stored and
    compared as plaintext, exactly as the program does. */
module Users {
  import opened Rows

  /** One row of `users(id, name, email UNIQUE, password, phone)`. */
  datatype User = User(id: nat, name: string, email: string, password: string, phone: string)

  /** The values an `insert_user` call supplies. */
  datatype NewUser = NewUser(name: string, email: string, password: string, phone: string)

  predicate EmailTaken(users: seq<User>, email: string) {
    exists i :: 0 <= i < |users| && users[i].email == email
  }

  /** The UNIQUE constraint on `email`. */
  predicate UniqueEmails(users: seq<User>) {
    forall i, j :: 0 <= i < j < |users| ==> users[i].email != users[j].email
  }

  /** The PRIMARY KEY constraint on `id`. */
  predicate UniqueIds(users: seq<User>) {
    forall i, j :: 0 <= i < j < |users| ==> users[i].id != users[j].id
  }

  /** What the table's constraints guarantee of its contents. */
  predicate Valid(users: seq<User>) {
    UniqueEmails(users) && UniqueIds(users)
  }

  /** The outcome of `insert_user`: its boolean result and the table after it. */
  datatype Insertion = Insertion(ok: bool, users: seq<User>)

  /** `insert_user(name, email, password, phone)`. The INSERT violates the
      UNIQUE constraint exactly when the email is already present; the
      exception is caught, nothing is committed and the result is `False`.
      Otherwise one row with a fresh id is appended and the result is `True`. */
  function InsertUser(users: seq<User>, u: NewUser): (r: Insertion)
    ensures r.ok <==> !EmailTaken(users, u.email)
    ensures !r.ok ==> r.users == users
    ensures r.ok ==> |r.users| == |users| + 1 && r.users[..|users|] == users
    ensures r.ok ==>
      var row := r.users[|users|];
      && row.name == u.name && row.email == u.email
      && row.password == u.password && row.phone == u.phone
      && forall i :: 0 <= i < |users| ==> users[i].id < row.id
  {
    if EmailTaken(users, u.email) then Insertion(false, users)
    else Insertion(true, users + [User(NextRowId(IdsOf(users, (row: User) => row.id)), u.name, u.email, u.password, u.phone)])
  }

  /** `insert_user` never breaks the table's constraints. */
  lemma InsertUserKeepsValid(users: seq<User>, u: NewUser)
    requires Valid(users)
    ensures Valid(InsertUser(users, u).users)
  {
  }

  /** The table after a sequence of `insert_user` calls, each on the result of
      the one before. */
  function InsertAll(users: seq<User>, reqs: seq<NewUser>): (r: seq<User>)
    decreases |reqs|
  {
    if |reqs| == 0 then users
    else InsertAll(InsertUser(users, reqs[0]).users, reqs[1..])
  }

  /** However many `insert_user` calls are made, with whatever arguments, no
      two rows ever share an email or an id. */
  lemma {:induction false} InsertAllKeepsValid(users: seq<User>, reqs: seq<NewUser>)
    requires Valid(users)
    ensures Valid(InsertAll(users, reqs))
    decreases |reqs|
  {
    if |reqs| > 0 {
      InsertUserKeepsValid(users, reqs[0]);
      InsertAllKeepsValid(InsertUser(users, reqs[0]).users, reqs[1..]);
    }
  }

  /** `check_user(email, password)`: the name of the first row whose email and
      password both equal the arguments, `None` when there is none. */
  function CheckUser(users: seq<User>, email: string, password: string): (r: Option<string>)
    ensures r.Some? <==> exists i :: 0 <= i < |users| && users[i].email == email && users[i].password == password
    ensures r.Some? ==> exists i :: 0 <= i < |users| && users[i].email == email && users[i].password == password && users[i].name == r.value
  {
    if |users| == 0 then None
    else if users[0].email == email && users[0].password == password then Some(users[0].name)
    else
      var r := CheckUser(users[1..], email, password);
      assert forall i :: 1 <= i < |users| ==> users[i] == users[1..][i - 1];
      r
  }

  /** With unique emails the answer for an existing email depends only on
      that row: its name when the password matches, `None` when it does not. */
  lemma {:induction false} CheckUserOnRow(users: seq<User>, k: nat, password: string)
    requires UniqueEmails(users)
    requires k < |users|
    ensures CheckUser(users, users[k].email, password)
         == (if users[k].password == password then Some(users[k].name) else None)
  {
    if k > 0 {
      assert users[0].email != users[k].email;
      assert UniqueEmails(users[1..]) by {
        forall i, j | 0 <= i < j < |users[1..]|
          ensures users[1..][i].email != users[1..][j].email
        {
          assert users[1..][i] == users[i + 1] && users[1..][j] == users[j + 1];
        }
      }
      CheckUserOnRow(users[1..], k - 1, password);
    }
  }

  /** A wrong password and an unknown email are indistinguishable: `check_user`
      returns `None` exactly when no row has that email, or the row that has it
      holds a different password. */
  lemma FailuresIndistinguishable(users: seq<User>, email: string, password: string)
    requires UniqueEmails(users)
    ensures CheckUser(users, email, password) == None
        <==> (!EmailTaken(users, email)
              || exists k :: 0 <= k < |users| && users[k].email == email && users[k].password != password)
  {
    if k :| 0 <= k < |users| && users[k].email == email {
      CheckUserOnRow(users, k, password);
      if users[k].password == password {
        forall j | 0 <= j < |users| && users[j].email == email
          ensures users[j].password == password
        {
          assert j == k;
        }
      }
    }
  }

  /** Once `insert_user` succeeds, `check_user` with the same email and
      password returns the inserted name. */
  lemma InsertThenCheck(users: seq<User>, u: NewUser)
    requires UniqueEmails(users)
    requires InsertUser(users, u).ok
    ensures CheckUser(InsertUser(users, u).users, u.email, u.password) == Some(u.name)
  {
    var after := InsertUser(users, u).users;
    assert UniqueEmails(after);
    CheckUserOnRow(after, |users|, u.password);
  }

  /** `get_users()`: the `(name, email)` pair of every row, in table order;
      the empty list for an empty table. It only reads the table. */
  function GetUsers(users: seq<User>): (rows: seq<(string, string)>)
    ensures |rows| == |users|
    ensures forall i :: 0 <= i < |users| ==> rows[i] == (users[i].name, users[i].email)
    ensures forall e :: EmailTaken(users, e) <==> exists i :: 0 <= i < |rows| && rows[i].1 == e
    ensures UniqueEmails(users) ==> forall i, j :: 0 <= i < j < |rows| ==> rows[i].1 != rows[j].1
  {
    seq(|users|, i requires 0 <= i < |users| => (users[i].name, users[i].email))
  }

  /** After a successful `insert_user`, `get_users` lists the earlier pairs
      unchanged and the new `(name, email)` pair last; after a failed one it
      lists exactly what it listed before. */
  lemma InsertThenListed(users: seq<User>, u: NewUser)
    ensures var r := InsertUser(users, u);
      var before, after := GetUsers(users), GetUsers(r.users);
      && (r.ok ==> after == before + [(u.name, u.email)])
      && (!r.ok ==> after == before)
  {
    var r := InsertUser(users, u);
    if r.ok {
      var before, after := GetUsers(users), GetUsers(r.users);
      assert |after| == |before| + 1;
      forall i | 0 <= i < |after| ensures after[i] == (before + [(u.name, u.email)])[i] {
        if i < |users| {
          assert r.users[i] == r.users[..|users|][i];
        }
      }
    }
  }
}
