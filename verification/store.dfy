/** The `users` table as a map from primary key to row, the repository
    queries the use cases issue, and the per-request infrastructure faults. */
module Store {
  import opened Errors
  import opened Text
  import opened Entity

  type Users = map<string, User>

  /** Which infrastructure calls fail during one request: a query (lookup or
      count), a write (insert or save), or the final commit. */
  datatype Faults = Faults(query: bool, write: bool, commit: bool)

  const NoFaults: Faults := Faults(false, false, false)

  /** Every row is stored under its own primary key. */
  ghost predicate KeyedById(users: Users) {
    forall k :: k in users ==> users[k].id == k
  }

  /** No two rows share a non-empty email. */
  ghost predicate EmailsUnique(users: Users) {
    forall k1, k2 ::
      k1 in users && k2 in users && users[k1].email != "" && users[k1].email == users[k2].email ==> k1 == k2
  }

  /** Some row has this email. */
  predicate EmailTaken(users: Users, email: string) {
    exists k :: k in users && users[k].email == email
  }

  /** Some row has this id. */
  predicate HasUserId(users: Users, id: string) {
    exists k :: k in users && users[k].id == id
  }

  /** Primary keys of the rows whose email matches. */
  function KeysWithEmail(users: Users, email: string): (ks: set<string>)
    ensures forall k :: k in ks <==> k in users && users[k].email == email
  {
    set k | k in users && users[k].email == email
  }

  /** `k` is the least primary key among the rows with this email. */
  ghost predicate IsFirstWithEmail(users: Users, email: string, k: string) {
    forall k' :: k' in users && users[k'].email == email ==> LexLeq(k, k')
  }

  /** `WHERE email = ? ... First`: the matching row with the least primary
      key, or None when no row matches. */
  function FindByEmail(users: Users, email: string): (r: Option<User>)
    ensures r.None? <==> !EmailTaken(users, email)
    ensures r.Some? ==> r.value.email == email
    ensures r.Some? ==>
              exists k :: k in users && users[k] == r.value && IsFirstWithEmail(users, email, k)
  {
    var ks := KeysWithEmail(users, email);
    if ks == {} then None
    else
      var k := Least(ks);
      Some(users[k])
  }

  /** When exactly one row has the email, that row is found. */
  lemma FindByEmailSole(users: Users, email: string, k: string)
    requires k in users && users[k].email == email
    requires forall k' :: k' in users && users[k'].email == email ==> k' == k
    ensures FindByEmail(users, email) == Some(users[k])
  {
  }

  /** Under unique emails, the row found by a non-empty email is the only
      row with that email. */
  lemma FindByEmailUnique(users: Users, email: string, k: string)
    requires EmailsUnique(users) && email != ""
    requires k in users && users[k].email == email
    ensures FindByEmail(users, email) == Some(users[k])
  {
  }

  /** `SELECT count(*) ... WHERE id = ?`. */
  function CountById(users: Users, id: string): (n: nat)
    ensures n > 0 <==> HasUserId(users, id)
  {
    CountNonZero(users, id);
    |set k | k in users && users[k].id == id|
  }

  lemma CountNonZero(users: Users, id: string)
    ensures |set k | k in users && users[k].id == id| > 0 <==> HasUserId(users, id)
  {
    var ks := set k | k in users && users[k].id == id;
    if HasUserId(users, id) {
      var k :| k in users && users[k].id == id;
      assert k in ks;
    } else {
      assert ks == {};
    }
  }

  /** With rows keyed by id, a user with the id exists exactly when the id
      is a key. */
  lemma HasUserIdKeyed(users: Users, id: string)
    requires KeyedById(users)
    ensures HasUserId(users, id) <==> id in users
  {
  }

  /** `INSERT`: fails when the primary key is already present. */
  function Create(users: Users, u: User): (r: Option<Users>)
    ensures r.None? <==> u.id in users
    ensures r.Some? ==> r.value.Keys == users.Keys + {u.id} && r.value[u.id] == u
    ensures r.Some? ==> forall k :: k in users ==> r.value[k] == users[k]
  {
    if u.id in users then None else Some(users[u.id := u])
  }

  /** `Save`: writes every column of the row stored under `u.id`. */
  function Save(users: Users, u: User): (r: Users)
    ensures r.Keys == users.Keys + {u.id} && r[u.id] == u
    ensures forall k :: k in users && k != u.id ==> r[k] == users[k]
  {
    users[u.id := u]
  }
}
