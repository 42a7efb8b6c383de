/** The user service: lookup by external identity and creation. */
module Users {
  import opened Outcomes
  import opened Models
  import opened Store

  /** The first row of `users` whose external id is `externalId`, if any. */
  function FindByExternalId(users: seq<User>, externalId: string): (r: Option<User>)
    ensures r.None? <==> externalId !in ExternalIds(users)
    ensures r.Some? ==> r.value in users && r.value.externalId == externalId
  {
    if users == [] then None
    else
      assert ExternalIds(users) == {users[0].externalId} + ExternalIds(users[1..]) by {
        assert users == [users[0]] + users[1..];
      }
      if users[0].externalId == externalId then Some(users[0])
      else FindByExternalId(users[1..], externalId)
  }

  /** Under the unique constraint on `external_id`, a user is determined by
      its external id. */
  lemma ExternalIdDeterminesUser(users: seq<User>, u: User, v: User)
    requires UsersWellFormed(users)
    requires u in users && v in users && u.externalId == v.externalId
    ensures u == v
  {
    KeyDeterminesRow(users, (x: User) => x.externalId, u, v);
  }

  /** `get_user_by_external_id`: the user with that external id, or None
      when there is none. It only reads the table. */
  function GetUserByExternalId(db: Database, externalId: string): (r: Option<User>)
    reads db
    ensures r.None? <==> externalId !in ExternalIds(db.users)
    ensures r.Some? ==> r.value in db.users && r.value.externalId == externalId
  {
    FindByExternalId(db.users, externalId)
  }

  /** In a well-formed table the lookup finds each user by its own
      external id. */
  lemma LookupFindsEachUser(users: seq<User>, u: User)
    requires UsersWellFormed(users) && u in users
    ensures FindByExternalId(users, u.externalId) == Some(u)
  {
    var r := FindByExternalId(users, u.externalId);
    ExternalIdDeterminesUser(users, r.value, u);
  }

  /** A user appended with a new external id is what the lookup returns,
      and every other lookup is as before. */
  lemma {:induction false} LookupAfterInsert(users: seq<User>, u: User, externalId: string)
    requires u.externalId !in ExternalIds(users)
    ensures FindByExternalId(users + [u], externalId)
            == if externalId == u.externalId then Some(u) else FindByExternalId(users, externalId)
  {
    if users == [] {
      assert [u][1..] == [];
    } else {
      assert (users + [u])[1..] == users[1..] + [u];
      assert users == [users[0]] + users[1..];
      LookupAfterInsert(users[1..], u, externalId);
    }
  }

  /** `create_user`: inserts one user with the given external id and
      username. When either value is already taken, the unique constraints
      make the commit fail and the table is left as it was. */
  method CreateUser(db: Database, externalId: string, username: string) returns (r: Result<User>)
    requires db.Valid()
    modifies db`users, db`nextUserId
    ensures db.Valid()
    ensures r.Err? <==> externalId in old(ExternalIds(db.users)) || username in old(Usernames(db.users))
    ensures r.Err? ==> r.error == IntegrityError && db.users == old(db.users)
    ensures r.Ok? ==> && r.value.externalId == externalId
                      && r.value.username == username
                      && r.value.id !in old(UserIds(db.users))
                      && db.users == old(db.users) + [r.value]
    ensures r.Ok? ==> GetUserByExternalId(db, externalId) == Some(r.value)
  {
    if externalId in ExternalIds(db.users) || username in Usernames(db.users) {
      return Err(IntegrityError);
    }
    var u := User(db.nextUserId, externalId, username);
    assert u.id !in UserIds(db.users);
    InsertUserKeepsKeys(db.users, u);
    LookupAfterInsert(db.users, u, externalId);
    db.users := db.users + [u];
    db.nextUserId := db.nextUserId + 1;
    r := Ok(u);
  }
}
