/**
 * Start-up seeding: create the database if it is missing, make sure both roles
 * exist, and make sure the default administrator exists and holds Admin.
 */
module Seeding {
  import opened Wrappers
  import opened Text
  import opened Entities
  import opened Schema

  /** The roles start-up creates, in order. */
  const SeedRoles: seq<Role> := [Admin, User]

  /** The administrator row start-up creates when none is found (its password,
      "admin123", meets the six-character policy, so the creation succeeds). */
  function NewAdmin(id: UserId): (u: ApplicationUser)
    ensures u.id == id && u.email == SeedAdminEmail && u.userName == SeedAdminEmail && u.roles == {}
  {
    ApplicationUser(id, SeedAdminEmail, SeedAdminEmail, {}, None, None, None, None)
  }

  /** The tables after seeding: both roles present; the user found by the
      administrator's e-mail given Admin, or a new administrator appended with
      Admin when there is none. */
  function SeedTables(t: Tables, freshId: UserId): Tables {
    t.(roles := t.roles + {Admin, User}, users := SeedUsers(t.users, freshId))
  }

  /** The user table after seeding. */
  function SeedUsers(users: seq<ApplicationUser>, freshId: UserId): seq<ApplicationUser> {
    match FindByEmail(users, SeedAdminEmail)
    case None => users + [NewAdmin(freshId).(roles := {Admin})]
    case Some(i) => users[i := users[i].(roles := users[i].roles + {Admin})]
  }

  /** Seeding keeps every table valid and keeps an existing seeded state; it
      always leaves a user matching the administrator's e-mail (after
      normalisation) that holds Admin, and it establishes the seeded state
      outright when no such user existed or the one found has the exact e-mail. */
  lemma SeedKeepsTables(t: Tables, freshId: UserId)
    requires TablesOk(t)
    requires freshId !in UserIds(t.users)
    ensures var t' := SeedTables(t, freshId);
      && TablesOk(t')
      && t'.roles == t.roles + {Admin, User}
      && (SeededTables(t) ==> SeededTables(t'))
      && (exists i | 0 <= i < |t'.users| ::
            NormalizeEmail(t'.users[i].email) == NormalizeEmail(SeedAdminEmail) && Admin in t'.users[i].roles)
    ensures var found := FindByEmail(t.users, SeedAdminEmail);
      found.None? || t.users[found.value].email == SeedAdminEmail ==> SeededTables(SeedTables(t, freshId))
  {
    var t1 := t.(roles := t.roles + {Admin, User});
    assert TablesOk(t1);
    match FindByEmail(t1.users, SeedAdminEmail)
    case None =>
      var a := NewAdmin(freshId).(roles := {Admin});
      AddUserKeepsTables(t1, a);
      assert t1.(users := t1.users + [a]).users[|t.users|] == a;
    case Some(i) =>
      var u := t1.users[i].(roles := t1.users[i].roles + {Admin});
      UpdateUserKeepsTables(t1, i, u);
      assert t1.(users := t1.users[i := u]).users[i] == u;
  }

  /** Seeding adds a user only when no user matched the administrator's e-mail,
      and otherwise changes no row but the one found, and that one only by
      adding Admin. */
  lemma SeedTouchesOnlyAdmin(users: seq<ApplicationUser>, freshId: UserId)
    ensures var found := FindByEmail(users, SeedAdminEmail);
      var users' := SeedUsers(users, freshId);
      && |users'| == |users| + (if found.None? then 1 else 0)
      && (forall k | 0 <= k < |users| && found != Some(k) :: users'[k] == users[k])
      && (found.Some? ==> users'[found.value] == users[found.value].(roles := users[found.value].roles + {Admin}))
      && (found.None? ==> users'[|users|] == NewAdmin(freshId).(roles := {Admin}))
  {
  }

  /** Seeding twice is seeding once: a restart changes nothing, whatever id it
      would have given a new administrator. */
  lemma SeedIdempotent(t: Tables, a: UserId, b: UserId)
    ensures SeedTables(SeedTables(t, a), b) == SeedTables(t, a)
  {
    match FindByEmail(t.users, SeedAdminEmail)
    case None => ReseedAfterCreate(t.users, a, b);
    case Some(i) => ReseedAfterPromote(t.users, a, b, i);
  }

  /** The administrator seeding created is found again, already holding Admin. */
  lemma ReseedAfterCreate(users: seq<ApplicationUser>, a: UserId, b: UserId)
    requires FindByEmail(users, SeedAdminEmail).None?
    ensures SeedUsers(SeedUsers(users, a), b) == SeedUsers(users, a)
  {
    var admin := NewAdmin(a).(roles := {Admin});
    FindAppended(users, admin, SeedAdminEmail);
    assert admin.(roles := admin.roles + {Admin}) == admin;
  }

  /** The user seeding promoted is found again at the same place, already
      holding Admin. */
  lemma ReseedAfterPromote(users: seq<ApplicationUser>, a: UserId, b: UserId, i: nat)
    requires FindByEmail(users, SeedAdminEmail) == Some(i)
    ensures SeedUsers(SeedUsers(users, a), b) == SeedUsers(users, a)
  {
    var u := users[i].(roles := users[i].roles + {Admin});
    FindUpdated(users, i, u, SeedAdminEmail);
    assert u.(roles := u.roles + {Admin}) == u;
  }

  /** A user appended when no e-mail matched is the one found afterwards. */
  lemma FindAppended(users: seq<ApplicationUser>, x: ApplicationUser, email: string)
    requires FindByEmail(users, email).None?
    requires NormalizeEmail(x.email) == NormalizeEmail(email)
    ensures FindByEmail(users + [x], email) == Some(|users|)
  {
    assert forall k | 0 <= k < |users| :: (users + [x])[k] == users[k] && users[k] in users;
  }

  /** Rewriting the found user without changing its e-mail leaves it the one found. */
  lemma FindUpdated(users: seq<ApplicationUser>, i: nat, x: ApplicationUser, email: string)
    requires FindByEmail(users, email) == Some(i)
    requires x.email == users[i].email
    ensures FindByEmail(users[i := x], email) == Some(i)
  {
    var users' := users[i := x];
    assert users'[i] in users' && NormalizeEmail(users'[i].email) == NormalizeEmail(email);
    assert forall k | 0 <= k < i :: NormalizeEmail(users'[k].email) != NormalizeEmail(email) by {
      forall k | 0 <= k < i ensures NormalizeEmail(users'[k].email) != NormalizeEmail(email) {
        assert users'[k] == users[k];
      }
    }
    var r := FindByEmail(users', email);
    assert r.Some?;
    assert r.value <= i;
    assert r.value >= i;
  }

  /** The role half of seeding: each missing role is created. */
  method EnsureRoles(s: Store)
    requires s.Valid()
    modifies s
    ensures s.Valid()
    ensures s.Content() == old(s.Content()).(roles := old(s.roles) + {Admin, User})
  {
    for k := 0 to |SeedRoles|
      invariant old(s.roles) <= s.roles <= old(s.roles) + {Admin, User}
      invariant forall j | 0 <= j < k :: SeedRoles[j] in s.roles
      invariant s.Content() == old(s.Content()).(roles := s.roles)
      invariant s.Valid()
    {
      var r := SeedRoles[k];
      if r !in s.roles {
        s.roles := s.roles + {r};
      }
    }
    assert SeedRoles[0] == Admin && SeedRoles[1] == User;
  }

  /** The administrator half of seeding: create the administrator when no user
      has its e-mail, then add Admin to it unless it already holds it. */
  method EnsureAdmin(s: Store, freshId: UserId)
    requires s.Valid() && Admin in s.roles && User in s.roles
    requires freshId !in UserIds(s.users)
    modifies s
    ensures s.Content() == SeedTables(old(s.Content()), freshId)
  {
    assert s.roles + {Admin, User} == s.roles;
    var found := FindByEmail(s.users, SeedAdminEmail);
    if found.None? {
      var admin := NewAdmin(freshId);
      s.users := s.users + [admin];
      found := Some(|s.users| - 1);
    }
    var i := found.value;
    var u := s.users[i];
    if Admin !in u.roles {
      s.users := s.users[i := u.(roles := u.roles + {Admin})];
    } else {
      assert u.(roles := u.roles + {Admin}) == u;
    }
    assert s.users == SeedUsers(old(s.users), freshId) by {
      if FindByEmail(old(s.users), SeedAdminEmail).None? {
        assert {} + {Admin} == {Admin};
        assert s.users == old(s.users) + [NewAdmin(freshId).(roles := {Admin})];
      }
    }
  }

  /** `EnsureDbAndSeedAsync`: the tables become `SeedTables` of what they were,
      stay valid, and are seeded afterwards when they were seeded before, when
      no user had the administrator's e-mail, or when the one found has it
      exactly. */
  method Seed(s: Store, freshId: UserId)
    requires s.Valid()
    requires freshId !in UserIds(s.users)
    modifies s
    ensures s.Content() == SeedTables(old(s.Content()), freshId)
    ensures s.Valid()
    ensures old(s.Seeded()) ==> s.Seeded()
    ensures var found := FindByEmail(old(s.users), SeedAdminEmail);
      found.None? || old(s.users)[found.value].email == SeedAdminEmail ==> s.Seeded()
  {
    SeedKeepsTables(s.Content(), freshId);
    EnsureRoles(s);
    EnsureAdmin(s, freshId);
  }

  /** Seeding a database with no users and no roles creates exactly the
      administrator and both roles, and leaves the tables seeded. */
  lemma SeedEmpty(t: Tables, freshId: UserId)
    requires t.users == [] && t.roles == {}
    ensures SeedTables(t, freshId).users == [NewAdmin(freshId).(roles := {Admin})]
    ensures SeedTables(t, freshId).roles == {Admin, User}
    ensures SeededTables(SeedTables(t, freshId))
  {
    assert SeedTables(t, freshId).users[0].email == SeedAdminEmail;
  }

  /** Start-up on an empty database: after seeding the store is valid and
      seeded, holding exactly the administrator. */
  method Startup(freshId: UserId) returns (s: Store)
    ensures s.Valid() && s.Seeded()
    ensures s.users == [NewAdmin(freshId).(roles := {Admin})]
    ensures s.roles == {Admin, User}
  {
    s := new Store();
    ghost var t := s.Content();
    SeedEmpty(t, freshId);
    Seed(s, freshId);
    assert s.Content() == SeedTables(t, freshId);
  }
}
