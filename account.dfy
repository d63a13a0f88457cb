/**
 * Registration: a valid form with an e-mail no user holds yet creates a user
 * whose user name and e-mail are the submitted e-mail, then gives it the User
 * role. Signing in is not modelled.
 */
module AccountController {
  import opened Wrappers
  import opened Entities
  import opened Schema

  /** The registration form (its password only matters to `CreateAsync`). */
  datatype RegisterForm = RegisterForm(email: string, password: string)

  /** The row `CreateAsync` inserts: e-mail as user name, no role yet, no profile fields. */
  function NewUser(id: UserId, email: string): (u: ApplicationUser)
    ensures u.id == id && u.userName == email && u.email == email && u.roles == {}
  {
    ApplicationUser(id, email, email, {}, None, None, None, None)
  }

  /** A user's e-mail is in use when some user's normalised e-mail matches it. */
  predicate EmailTaken(users: seq<ApplicationUser>, email: string) {
    exists u | u in users :: NormalizeEmail(u.email) == NormalizeEmail(email)
  }

  /** `Register` (POST): an invalid form, an e-mail already in use (compared
      after normalisation) or a failed `CreateAsync` adds no user and assigns no
      role; otherwise exactly one user is appended, holding only User, and
      nothing else changes. `createOk` is whether `CreateAsync` succeeds (the
      password policy and the store's own checks); `freshId` is the new user's id. */
  method Register(s: Store, vm: RegisterForm, modelValid: bool, createOk: bool, freshId: UserId) returns (o: Outcome)
    requires s.Valid() && s.Seeded()
    requires freshId !in UserIds(s.users)
    modifies s
    ensures s.Valid() && s.Seeded()
    ensures !modelValid ==> o == Rejected(InvalidModel) && s.Content() == old(s.Content())
    ensures modelValid && EmailTaken(old(s.users), vm.email) ==>
      o == Rejected(DuplicateEmail) && s.Content() == old(s.Content())
    ensures modelValid && !EmailTaken(old(s.users), vm.email) && !createOk ==>
      o == Rejected(CreateFailed) && s.Content() == old(s.Content())
    ensures modelValid && !EmailTaken(old(s.users), vm.email) && createOk ==>
      && o == Ok
      && s.Content() == old(s.Content()).(users := old(s.users) + [NewUser(freshId, vm.email).(roles := {User})])
  {
    if !modelValid {
      return Rejected(InvalidModel);
    }
    var existing := FindByEmail(s.users, vm.email);
    if existing.Some? {
      assert s.users[existing.value] in s.users;
      return Rejected(DuplicateEmail);
    }
    assert !EmailTaken(s.users, vm.email);
    if !createOk {
      return Rejected(CreateFailed);
    }
    SaveNewUser(s, freshId, vm.email);
    o := Ok;
  }

  /** `CreateAsync` followed by `AddToRoleAsync(user, "User")`: the new row is
      appended, then given the User role. */
  method SaveNewUser(s: Store, id: UserId, email: string)
    requires s.Valid() && s.Seeded()
    requires id !in UserIds(s.users)
    requires forall u | u in s.users :: NormalizeEmail(u.email) != NormalizeEmail(email)
    modifies s
    ensures s.Valid() && s.Seeded()
    ensures s.Content() == old(s.Content()).(users := old(s.users) + [NewUser(id, email).(roles := {User})])
  {
    var user := NewUser(id, email);
    AddUserKeepsTables(s.Content(), user);
    s.users := s.users + [user];
    var i := |s.users| - 1;
    UpdateUserKeepsTables(s.Content(), i, user.(roles := {User}));
    s.users := s.users[i := user.(roles := {User})];
    assert s.Content() == old(s.Content()).(users := old(s.users) + [NewUser(id, email).(roles := {User})]);
  }

  /** After a successful registration the new user is found by its e-mail, by
      its id, and holds exactly the User role. */
  lemma RegisteredUserFound(users: seq<ApplicationUser>, email: string, freshId: UserId)
    requires !EmailTaken(users, email)
    requires freshId !in UserIds(users)
    ensures var users' := users + [NewUser(freshId, email).(roles := {User})];
      && FindByEmail(users', email) == Some(|users|)
      && FindUser(users', freshId) == Some(|users|)
      && users'[|users|].roles == {User}
  {
    var users' := users + [NewUser(freshId, email).(roles := {User})];
    assert users'[|users|] in users';
    assert forall k | 0 <= k < |users| :: users'[k] == users[k] && users[k] in users;
  }
}
