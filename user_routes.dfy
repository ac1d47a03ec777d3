/** The profile routes: five get- routes and five set- routes, one pair per
    profile column (name, enrollment, branch, phone, college), which differ only
    in the column they name and are modelled once over `Profile`. */
module UserRoutes {
  import opened Outcomes
  import opened Store

  /** `value || null`: an empty string reads as null. */
  function OrNull(value: Option<string>): (r: Option<string>)
    ensures r.Some? <==> value.Some? && value.value != ""
    ensures r.Some? ==> r == value
  {
    if value.Some? && value.value != "" then value else None
  }

  /** What a get- route answers for a uid it was given: null when no row has
      the uid, else the column's value, null when that is null or empty. */
  function Lookup(users: map<string, UserRow>, uid: string, f: Profile): (r: Option<string>)
    ensures r.Some? <==> uid in users && FieldOf(users[uid], f).Some? && FieldOf(users[uid], f).value != ""
    ensures r.Some? ==> r == FieldOf(users[uid], f)
  {
    if uid !in users then None else OrNull(FieldOf(users[uid], f))
  }

  /** get-user-name, get-enrollment, get-branch, get-phone, get-college:
      400 without a uid, otherwise the looked-up value. Reads the users table only. */
  function GetProfileField(db: Database, uid: string, f: Profile): (r: Result<Option<string>>)
    reads db
    ensures r.Err? <==> uid == ""
    ensures r.Err? ==> r.error == MissingFields
    ensures r.Ok? && uid !in db.users ==> r.value == None
    ensures r.Ok? && r.value.Some? ==> uid in db.users && r.value == FieldOf(db.users[uid], f) && r.value.value != ""
    ensures uid != "" && uid in db.users && FieldOf(db.users[uid], f).Some? && FieldOf(db.users[uid], f).value != "" ==>
              r == Ok(FieldOf(db.users[uid], f))
  {
    if uid == "" then Err(MissingFields) else Ok(Lookup(db.users, uid, f))
  }

  /** The users table after `UPDATE users SET <f> = value WHERE uid = ?`:
      the row of uid, if there is one, has column f set; nothing else changes. */
  function SetProfile(users: map<string, UserRow>, uid: string, f: Profile, value: string): (r: map<string, UserRow>)
    ensures r.Keys == users.Keys
    ensures forall u :: u in users && u != uid ==> r[u] == users[u]
    ensures uid in users ==> r[uid] == WithField(users[uid], f, value)
    ensures uid !in users ==> r == users
  {
    if uid in users then users[uid := WithField(users[uid], f, value)] else users
  }

  /** A get- after a set- of the same column answers the value set; every
      other (uid, column) reads as before. */
  lemma GetAfterSet(users: map<string, UserRow>, uid: string, f: Profile, value: string)
    requires uid in users && value != ""
    ensures Lookup(SetProfile(users, uid, f, value), uid, f) == Some(value)
    ensures forall u, g :: (u, g) != (uid, f) ==>
              Lookup(SetProfile(users, uid, f, value), u, g) == Lookup(users, u, g)
  {
    var r := SetProfile(users, uid, f, value);
    forall u, g | (u, g) != (uid, f) ensures Lookup(r, u, g) == Lookup(users, u, g) {
      if u == uid {
        assert FieldOf(r[u], g) == FieldOf(users[u], g);
      }
    }
  }

  /** set-user-name, set-enrollment, set-branch, set-phone, set-college: 400
      and no change without a uid or with an empty value. A value the column
      does not accept, written to an existing row, makes the UPDATE fail (500)
      and nothing changes. Otherwise the column of the row of uid, if any,
      stores the value as the column fits it, and the reply echoes the value
      as sent, even when no row has the uid. */
  method SetProfileField(db: Database, uid: string, f: Profile, value: string) returns (r: Result<string>)
    requires db.Valid()
    modifies db`users
    ensures db.Valid()
    ensures uid == "" || value == "" ==> r == Err(MissingFields) && db.users == old(db.users)
    ensures uid != "" && value != "" && uid in old(db.users) && !FitsColumn(value) ==>
              r == Err(StorageFailure) && db.users == old(db.users)
    ensures uid != "" && value != "" && uid !in old(db.users) ==>
              r == Ok(value) && db.users == old(db.users)
    ensures uid != "" && value != "" && uid in old(db.users) && FitsColumn(value) ==>
              r == Ok(value) && db.users == SetProfile(old(db.users), uid, f, Fit(value))
  {
    if uid == "" || value == "" {
      return Err(MissingFields);
    }
    if uid !in db.users {
      return Ok(value);
    }
    if !FitsColumn(value) {
      return Err(StorageFailure);
    }
    db.users := SetProfile(db.users, uid, f, Fit(value));
    r := Ok(value);
  }
}
