/**
 * The user services: show, list, update and delete users in the users
 * table.  E-mail addresses are meant to be unique across the table; the
 * update service checks this against the store before writing.
 */
module Users {
  import opened Results
  import opened Repository

  /** A stored user; the password field holds the hash, never the plain text. */
  datatype User = User(id: Id, name: string, email: string, password: string, avatar: Option<string>)

  type Table = map<Id, User>

  /** The password hashing function (bcrypt's `hash`), taken as given: (plain text, cost) to digest. */
  type Hasher = (string, nat) -> string

  /** The cost factor the update service passes to the hashing function. */
  const HashCost: nat := 8

  const NotFound := AppError("User not found.")
  const EmailInUse := AppError("Email address already used.")

  /** Every record is stored under its own primary key. */
  predicate Keyed(m: Table) {
    forall k :: k in m ==> m[k].id == k
  }

  /** `findByEmail(email)` finds a user: some stored user has exactly this address. */
  predicate EmailTaken(m: Table, email: string) {
    exists k :: k in m && m[k].email == email
  }

  /** No two stored users share an e-mail address. */
  predicate EmailsUnique(m: Table) {
    forall a, b :: a in m && b in m && m[a].email == m[b].email ==> a == b
  }

  /**
   * ShowUserService: the stored user with this id, or "User not found.".
   * The source declares its result as possibly undefined; a successful
   * call always carries a user.
   */
  function Show(m: Table, id: Id): (r: Result<User>)
    ensures r.Ok? <==> id in m
    ensures r.Ok? ==> r.value == m[id]
    ensures r.Err? ==> r.error == NotFound
    ensures Keyed(m) && r.Ok? ==> r.value.id == id
  {
    if id in m then Ok(m[id]) else Err(NotFound)
  }

  /**
   * ListUserService: every stored user, once each, in the order the store
   * scans them.  It has no error path.
   */
  ghost function List(m: Table): (r: seq<User>)
    ensures |r| == |m|
    ensures forall k :: k in m ==> m[k] in r
    ensures forall i :: 0 <= i < |r| ==> r[i] in m.Values
    ensures Keyed(m) ==> forall i :: 0 <= i < |r| ==> r[i].id in m && m[r[i].id] == r[i]
    ensures Keyed(m) ==> forall i, j :: 0 <= i < j < |r| ==> r[i].id != r[j].id
  {
    var r := Find(m);
    assert Keyed(m) ==> Injective(m);
    r
  }

  /**
   * UpdateUserService.  The existence check runs before the e-mail check,
   * and the e-mail check looks at every user, the updated one included.
   * On success name and e-mail are replaced, the password is replaced by
   * its hash at cost 8, the id and avatar stay, and no other user changes.
   */
  function UpdateStep(m: Table, id: Id, name: string, email: string, password: string, hash: Hasher)
    : (s: Step<Result<User>, User>)
    ensures s.result.Ok? <==> id in m && !EmailTaken(m, email)
    ensures id !in m ==> s.result == Err(NotFound)
    ensures id in m && EmailTaken(m, email) ==> s.result == Err(EmailInUse)
    ensures s.result.Err? ==> s.after == m
    ensures s.result.Ok? ==>
      && s.result.value.id == m[id].id
      && s.result.value.name == name
      && s.result.value.email == email
      && s.result.value.password == hash(password, HashCost)
      && s.result.value.avatar == m[id].avatar
    ensures s.after.Keys == m.Keys
    ensures s.result.Ok? ==> s.after[id] == s.result.value
    ensures forall k :: k in m && k != id ==> s.after[k] == m[k]
    ensures Keyed(m) ==> Keyed(s.after)
    ensures EmailsUnique(m) ==> EmailsUnique(s.after)
  {
    if id !in m then
      Step(Err(NotFound), m)
    else if EmailTaken(m, email) then
      Step(Err(EmailInUse), m)
    else
      var user := m[id].(name := name, email := email, password := hash(password, HashCost));
      Step(Ok(user), m[id := user])
  }

  /**
   * DeleteUserService.  It fails, changing nothing, exactly when the id is
   * unknown; otherwise that one user is gone and every other user stays.
   */
  function DeleteStep(m: Table, id: Id): (s: Step<Outcome, User>)
    ensures s.result.Done? <==> id in m
    ensures s.result.Failed? ==> s.result.error == NotFound && s.after == m
    ensures s.result.Done? ==> id !in s.after && s.after.Keys == m.Keys - {id} && |s.after| == |m| - 1
    ensures forall k :: k in s.after ==> k in m && s.after[k] == m[k]
    ensures Keyed(m) ==> Keyed(s.after)
    ensures EmailsUnique(m) ==> EmailsUnique(s.after)
  {
    if id !in m then
      Step(Failed(NotFound), m)
    else
      var after := m - {id};
      assert after.Keys == m.Keys - {id};
      Step(Done, after)
  }

  /** The users repository: the table the services read, save to and remove from. */
  class UserTable {
    var users: Table

    ghost predicate Valid()
      reads this
    {
      Keyed(users)
    }

    constructor ()
      ensures Valid() && users == map[]
    {
      users := map[];
    }

    /** UpdateUserService.execute: look up, check the e-mail, hash, overwrite field by field, save. */
    method Update(id: Id, name: string, email: string, password: string, hash: Hasher)
      returns (r: Result<User>)
      requires Valid()
      modifies this
      ensures Valid()
      ensures Step(r, users) == UpdateStep(old(users), id, name, email, password, hash)
    {
      if id !in users {
        return Err(NotFound);
      }
      var user := users[id];
      if EmailTaken(users, email) {
        return Err(EmailInUse);
      }
      var hashedPassword := hash(password, HashCost);
      user := user.(name := name);
      user := user.(email := email);
      user := user.(password := hashedPassword);
      users := users[user.id := user];
      r := Ok(user);
    }

    /** DeleteUserService.execute: look up, then remove the record found. */
    method Delete(id: Id) returns (r: Outcome)
      requires Valid()
      modifies this
      ensures Valid()
      ensures Step(r, users) == DeleteStep(old(users), id)
    {
      if id !in users {
        return Failed(NotFound);
      }
      var user := users[id];
      users := users - {user.id};
      r := Done;
    }
  }

  /** Deleting the same id twice: the second call reports "User not found." and changes nothing. */
  lemma SecondDeleteNotFound(m: Table, id: Id)
    requires id in m
    ensures var after := DeleteStep(m, id).after;
      DeleteStep(after, id) == Step(Failed(NotFound), after)
  {
  }

  /** As written, an update that keeps the user's current e-mail address is rejected. */
  lemma UpdateKeepingEmailRejected(m: Table, id: Id, name: string, password: string, hash: Hasher)
    requires id in m
    ensures UpdateStep(m, id, name, m[id].email, password, hash) == Step(Err(EmailInUse), m)
  {
  }

  /** After a successful update, showing the user returns the new values and the hashed password. */
  lemma UpdatedIsShown(m: Table, id: Id, name: string, email: string, password: string, hash: Hasher)
    requires Keyed(m) && id in m && !EmailTaken(m, email)
    ensures Show(UpdateStep(m, id, name, email, password, hash).after, id)
         == Ok(User(id, name, email, hash(password, HashCost), m[id].avatar))
  {
  }
}
