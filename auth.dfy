/**
 * The session-state account store of the early prototype: a list of user records (dictionaries
 * from field names to values), the authenticated flag, the current username and `user_data`, the
 * record of the logged-in user. After a login `user_data` IS the stored record (the same
 * dictionary object), so writes through either name are seen by both; after a logout it is a
 * fresh empty dictionary.
 *
 * The store is the class `AuthSession` over `UserRecord` objects; `Session` is its value, and
 * the operations are specified by functions on `Session` whose properties are lemmas.
 */
module Auth {
  import opened Wrappers
  import opened Text
  import opened Hashing
  import App
  import TrustScore

  /** A field value: the records hold strings, integers and `None`. */
  datatype Value = Str(s: string) | Num(n: int) | Null

  type Record = map<string, Value>

  const UsernameKey := "username"
  const PasswordKey := "password"
  const RoleKey := "role"
  const TrustScoreKey := "trust_score"
  const LastLoginKey := "last_login"

  /** The store as a value: the records in list order, the three session fields, and `alias`,
      the position of the record `user_data` is the same object as (None when it is a
      dictionary of its own). */
  datatype Session = Session(records: seq<Record>, authenticated: bool, currentUser: Option<string>,
                             alias: Option<nat>, userData: Record)

  datatype Step = Step(session: Session, ok: bool)

  /** Every record can be looked up and checked: it has a username and a password. */
  predicate RecordsOk(rs: seq<Record>) {
    forall i :: 0 <= i < |rs| ==> UsernameKey in rs[i] && PasswordKey in rs[i]
  }

  /** A well-formed session: the records are well formed, and an aliased `user_data` holds
      exactly what its record holds. */
  predicate SessionOk(s: Session) {
    && RecordsOk(s.records)
    && (s.alias.Some? ==> s.alias.value < |s.records| && s.userData == s.records[s.alias.value])
  }

  /** Replacing a record by one with at least its keys keeps every record well formed. */
  lemma RecordsOkGrow(rs: seq<Record>, i: nat, r: Record)
    requires RecordsOk(rs) && i < |rs| && rs[i].Keys <= r.Keys
    ensures RecordsOk(rs[i := r])
  {
  }

  lemma RecordsOkRemove(rs: seq<Record>, i: nat)
    requires RecordsOk(rs) && i < |rs|
    ensures RecordsOk(rs[..i] + rs[i + 1..])
  {
    var vs := rs[..i] + rs[i + 1..];
    assert forall j :: 0 <= j < |vs| ==> vs[j] == if j < i then rs[j] else rs[j + 1];
  }

  lemma RecordsOkAppend(rs: seq<Record>, r: Record)
    requires RecordsOk(rs) && UsernameKey in r && PasswordKey in r
    ensures RecordsOk(rs + [r])
  {
  }

  predicate HasUsername(r: Record, key: Value) {
    UsernameKey in r && r[UsernameKey] == key
  }

  /** `get_user_by_username`: the position of the first record whose username is `key`. */
  function FirstUser(rs: seq<Record>, key: Value): (r: Option<nat>)
    ensures r.Some? ==> r.value < |rs|
  {
    if rs == [] then None
    else if HasUsername(rs[0], key) then Some(0)
    else match FirstUser(rs[1..], key)
      case None => None
      case Some(k) => Some(k + 1)
  }

  /** `FirstUser` finds the first record with the username, and fails only when there is none. */
  lemma {:induction false} FirstUserSpec(rs: seq<Record>, key: Value)
    ensures var r := FirstUser(rs, key);
      && (r.Some? ==> r.value < |rs| && HasUsername(rs[r.value], key) && forall j :: 0 <= j < r.value ==> !HasUsername(rs[j], key))
      && (r.None? <==> forall j :: 0 <= j < |rs| ==> !HasUsername(rs[j], key))
  {
    if rs != [] {
      FirstUserSpec(rs[1..], key);
    }
  }

  /** No two records share a username. */
  predicate UniqueUsernames(rs: seq<Record>) {
    forall i, j :: 0 <= i < j < |rs| && UsernameKey in rs[i] && UsernameKey in rs[j] ==> rs[i][UsernameKey] != rs[j][UsernameKey]
  }

  predicate PasswordMatches(r: Record, password: string) {
    PasswordKey in r && r[PasswordKey] == Str(Sha256Hex(password))
  }

  /** After a write to the records, an aliased `user_data` shows the record's new contents. */
  function Refresh(s: Session): Session {
    if s.alias.Some? && s.alias.value < |s.records| then s.(userData := s.records[s.alias.value]) else s
  }

  // ---------------------------------------------------------------- login and logout

  /** The first record whose username and password both match; that scan is `login_user`'s. */
  function LoginIndex(rs: seq<Record>, username: string, password: string): (r: Option<nat>)
    ensures r.Some? ==> r.value < |rs|
  {
    if rs == [] then None
    else if HasUsername(rs[0], Str(username)) && PasswordMatches(rs[0], password) then Some(0)
    else match LoginIndex(rs[1..], username, password)
      case None => None
      case Some(k) => Some(k + 1)
  }

  /** `LoginIndex` finds a record matching both username and password, and fails only when there
      is none. */
  lemma {:induction false} LoginIndexSpec(rs: seq<Record>, username: string, password: string)
    ensures var r := LoginIndex(rs, username, password);
      && (r.Some? ==> r.value < |rs| && HasUsername(rs[r.value], Str(username)) && PasswordMatches(rs[r.value], password))
      && (r.None? <==> forall j :: 0 <= j < |rs| ==> !(HasUsername(rs[j], Str(username)) && PasswordMatches(rs[j], password)))
  {
    if rs != [] {
      LoginIndexSpec(rs[1..], username, password);
    }
  }

  /** `login_user`: the matching record becomes `user_data` and gets its `last_login` stamp. */
  function Login(s: Session, username: string, password: string, now: string): Step {
    match LoginIndex(s.records, username, password)
    case None => Step(s, false)
    case Some(i) =>
      var rs := s.records[i := s.records[i][LastLoginKey := Str(now)]];
      Step(Session(rs, true, Some(username), Some(i), rs[i]), true)
  }

  /** `get_current_user` */
  function CurrentUser(s: Session): Option<Record> {
    if s.authenticated then Some(s.userData) else None
  }

  /** A login succeeds exactly when some record has the username and the password's digest; only
      then is the session authenticated for that user, whose record, stamped with the login time,
      is the current user's data. A failed login changes nothing. */
  lemma LoginSpec(s: Session, username: string, password: string, now: string)
    requires SessionOk(s)
    ensures var r := Login(s, username, password, now);
      && (r.ok <==> exists i :: 0 <= i < |s.records| && HasUsername(s.records[i], Str(username)) && PasswordMatches(s.records[i], password))
      && (!r.ok ==> r.session == s)
      && (r.ok ==>
            && r.session.authenticated && r.session.currentUser == Some(username)
            && var i := r.session.alias.value;
            && i < |s.records|
            && CurrentUser(r.session) == Some(s.records[i][LastLoginKey := Str(now)])
            && HasUsername(s.records[i], Str(username)) && PasswordMatches(s.records[i], password)
            && r.session.records == s.records[i := s.records[i][LastLoginKey := Str(now)]])
      && SessionOk(r.session)
  {
    LoginIndexSpec(s.records, username, password);
  }

  /** `logout_user`: the session forgets the user; the records stay. */
  function Logout(s: Session): Session {
    s.(authenticated := false, currentUser := None, alias := None, userData := map[])
  }

  lemma LogoutSpec(s: Session)
    requires SessionOk(s)
    ensures CurrentUser(Logout(s)) == None
    ensures Logout(s).records == s.records && Logout(s).currentUser == None
    ensures SessionOk(Logout(s))
  {
  }

  // ---------------------------------------------------------------- registration

  /** The record `register_user` creates; `today` is the creation date as "YYYY-MM-DD". */
  function NewUser(username: string, password: string, fullName: string, email: string, phone: string, role: string,
                   today: string): Record
  {
    map[UsernameKey := Str(username), PasswordKey := Str(Sha256Hex(password)), "full_name" := Str(fullName),
        "email" := Str(email), "phone" := Str(phone), RoleKey := Str(role), TrustScoreKey := Num(75),
        "created_date" := Str(today), LastLoginKey := Null]
  }

  /** `register_user`; the source's default role is "member". */
  function Register(s: Session, username: string, password: string, fullName: string, email: string, phone: string,
                    role: string, today: string): Step
  {
    if FirstUser(s.records, Str(username)).Some? then Step(s, false)
    else Step(s.(records := s.records + [NewUser(username, password, fullName, email, phone, role, today)]), true)
  }

  lemma NewUserOk(username: string, password: string, fullName: string, email: string, phone: string, role: string,
                  today: string)
    ensures var u := NewUser(username, password, fullName, email, phone, role, today);
      UsernameKey in u && PasswordKey in u && u[UsernameKey] == Str(username) && u[PasswordKey] == Str(Sha256Hex(password))
      && u[TrustScoreKey] == Num(75) && u[LastLoginKey] == Null && u[RoleKey] == Str(role)
  {
  }

  /** Registering fails, changing nothing, exactly when the username is taken; otherwise exactly one
      record is appended, starting at trust score 75 with no login yet, under which the user can
      log in with the chosen password. Unique usernames stay unique. */
  lemma RegisterSpec(s: Session, username: string, password: string, fullName: string, email: string, phone: string,
                     role: string, today: string)
    requires SessionOk(s)
    ensures var r := Register(s, username, password, fullName, email, phone, role, today);
      && (r.ok <==> forall i :: 0 <= i < |s.records| ==> !HasUsername(s.records[i], Str(username)))
      && (!r.ok ==> r.session == s)
      && (r.ok ==>
            && r.session == s.(records := s.records + [NewUser(username, password, fullName, email, phone, role, today)])
            && var u := r.session.records[|s.records|];
            && u[TrustScoreKey] == Num(75) && u[LastLoginKey] == Null && u[RoleKey] == Str(role)
            && LoginIndex(r.session.records, username, password) == Some(|s.records|))
      && SessionOk(r.session)
      && (UniqueUsernames(s.records) ==> UniqueUsernames(r.session.records))
  {
    FirstUserSpec(s.records, Str(username));
    var r := Register(s, username, password, fullName, email, phone, role, today);
    var u := NewUser(username, password, fullName, email, phone, role, today);
    assert UsernameKey in u && PasswordKey in u && u[UsernameKey] == Str(username);
    if r.ok {
      var rs := r.session.records;
      assert forall j :: 0 <= j < |s.records| ==> rs[j] == s.records[j];
      assert rs[|s.records|] == u;
      LoginAtEnd(s.records, u, username, password);
    }
  }

  /** A record the earlier ones do not share a username with is found by its own login. */
  lemma {:induction false} LoginAtEnd(rs: seq<Record>, u: Record, username: string, password: string)
    requires forall i :: 0 <= i < |rs| ==> !HasUsername(rs[i], Str(username))
    requires HasUsername(u, Str(username)) && PasswordMatches(u, password)
    ensures LoginIndex(rs + [u], username, password) == Some(|rs|)
  {
    if rs != [] {
      assert (rs + [u])[1..] == rs[1..] + [u];
      LoginAtEnd(rs[1..], u, username, password);
    }
  }

  // ---------------------------------------------------------------- profile

  /** `f` with the keys it already has set from `updates`; no key is added. */
  function Overwrite(f: Record, updates: Record): (r: Record)
    ensures r.Keys == f.Keys
  {
    map k | k in f :: if k in updates then updates[k] else f[k]
  }

  /** `update_user_profile` as written. The stored record gets only the keys it already has, but
      for the current user `user_data.update(updates)` then adds every key, and after a login
      `user_data` is that stored record. */
  function UpdateProfile(s: Session, username: string, updates: Record): Step {
    match FirstUser(s.records, Str(username))
    case None => Step(s, false)
    case Some(i) =>
      var rs := s.records[i := Overwrite(s.records[i], updates)];
      if s.currentUser == Some(username) then
        if s.alias.Some? && s.alias.value < |rs| then
          var d := rs[s.alias.value] + updates;
          Step(s.(records := rs[s.alias.value := d], userData := d), true)
        else Step(s.(records := rs, userData := s.userData + updates), true)
      else Step(Refresh(s.(records := rs)), true)
  }

  /** `update_user_profile` as intended: the session copy, like the stored record, takes only the
      keys it already has. */
  function UpdateProfileChecked(s: Session, username: string, updates: Record): Step {
    match FirstUser(s.records, Str(username))
    case None => Step(s, false)
    case Some(i) =>
      var rs := s.records[i := Overwrite(s.records[i], updates)];
      if s.currentUser == Some(username) then
        if s.alias.Some? && s.alias.value < |rs| then
          var d := Overwrite(rs[s.alias.value], updates);
          Step(s.(records := rs[s.alias.value := d], userData := d), true)
        else Step(s.(records := rs, userData := Overwrite(s.userData, updates)), true)
      else Step(Refresh(s.(records := rs)), true)
  }

  /** As written, once a user has logged in, updating their own profile with a key their record
      lacks stores that key in the record. */
  lemma ProfileAliasAddsKeys(s: Session, username: string, updates: Record, key: string)
    requires SessionOk(s)
    requires s.currentUser == Some(username) && s.alias == FirstUser(s.records, Str(username)) && s.alias.Some?
    requires key in updates && key !in s.records[s.alias.value]
    ensures var r := UpdateProfile(s, username, updates);
      r.ok && key in r.session.records[s.alias.value] && r.session.records[s.alias.value][key] == updates[key]
  {
  }

  /** The intended update fails, changing nothing, exactly when no record has the username; it
      never adds or removes a key of any record or of `user_data`, sets every existing key that
      `updates` names in the user's record, and keeps an aliased `user_data` equal to its record. */
  lemma UpdateProfileCheckedSpec(s: Session, username: string, updates: Record)
    requires SessionOk(s)
    ensures var r := UpdateProfileChecked(s, username, updates);
      && (r.ok <==> FirstUser(s.records, Str(username)).Some?)
      && (!r.ok ==> r.session == s)
      && |r.session.records| == |s.records|
      && (forall j :: 0 <= j < |s.records| ==> r.session.records[j].Keys == s.records[j].Keys)
      && r.session.userData.Keys == s.userData.Keys
      && (r.ok ==>
            var i := FirstUser(s.records, Str(username)).value;
            forall k :: k in s.records[i] && k in updates ==> r.session.records[i][k] == updates[k])
      && SessionOk(r.session)
  {
    match FirstUser(s.records, Str(username))
    case None =>
    case Some(i) =>
      var rs := s.records[i := Overwrite(s.records[i], updates)];
      RecordsOkGrow(s.records, i, rs[i]);
      assert forall j :: 0 <= j < |rs| ==> rs[j].Keys == s.records[j].Keys;
      var r := UpdateProfileChecked(s, username, updates);
      if s.currentUser == Some(username) && s.alias.Some? {
        var k := s.alias.value;
        var d := Overwrite(rs[k], updates);
        RecordsOkGrow(rs, k, d);
        assert r.session.records == rs[k := d];
      } else if s.currentUser != Some(username) {
        assert r.session.records == rs;
      }
  }

  // ---------------------------------------------------------------- password and trust score

  /** `change_password`: only the first record with the username is tried. */
  function ChangePassword(s: Session, username: string, oldPassword: string, newPassword: string): Step {
    match FirstUser(s.records, Str(username))
    case None => Step(s, false)
    case Some(i) =>
      if PasswordMatches(s.records[i], oldPassword) then
        Step(Refresh(s.(records := s.records[i := s.records[i][PasswordKey := Str(Sha256Hex(newPassword))]])), true)
      else Step(s, false)
  }

  /** A change succeeds exactly when the user's record holds the old password's digest, and then
      replaces that digest by the new one and nothing else; otherwise nothing changes. After a
      change the user logs in with the new password. */
  lemma ChangePasswordSpec(s: Session, username: string, oldPassword: string, newPassword: string)
    requires SessionOk(s)
    ensures var r := ChangePassword(s, username, oldPassword, newPassword);
      && (r.ok <==> FirstUser(s.records, Str(username)).Some? && PasswordMatches(s.records[FirstUser(s.records, Str(username)).value], oldPassword))
      && (!r.ok ==> r.session == s)
      && (r.ok ==>
            var i := FirstUser(s.records, Str(username)).value;
            && r.session.records == s.records[i := s.records[i][PasswordKey := Str(Sha256Hex(newPassword))]]
            && LoginIndex(r.session.records, username, newPassword) == Some(i))
      && SessionOk(r.session)
  {
    FirstUserSpec(s.records, Str(username));
    var r := ChangePassword(s, username, oldPassword, newPassword);
    if r.ok {
      var i := FirstUser(s.records, Str(username)).value;
      LoginAtFirst(r.session.records, i, username, newPassword);
    }
  }

  /** The first record with the username is found by a login with its password. */
  lemma {:induction false} LoginAtFirst(rs: seq<Record>, i: nat, username: string, password: string)
    requires i < |rs| && HasUsername(rs[i], Str(username)) && PasswordMatches(rs[i], password)
    requires forall j :: 0 <= j < i ==> !HasUsername(rs[j], Str(username))
    ensures LoginIndex(rs, username, password) == Some(i)
  {
    if i > 0 {
      LoginAtFirst(rs[1..], i - 1, username, password);
    }
  }

  /** `update_trust_score`: the stored score is clamped to 0-100, and copied into `user_data`
      when the user is the current one. */
  function UpdateTrust(s: Session, username: string, newScore: int): Step {
    match FirstUser(s.records, Str(username))
    case None => Step(s, false)
    case Some(i) =>
      var v := Num(TrustScore.Clamp(newScore));
      var rs := s.records[i := s.records[i][TrustScoreKey := v]];
      if s.currentUser == Some(username) then
        if s.alias.Some? && s.alias.value < |rs| then
          var d := rs[s.alias.value][TrustScoreKey := v];
          Step(s.(records := rs[s.alias.value := d], userData := d), true)
        else Step(s.(records := rs, userData := s.userData[TrustScoreKey := v]), true)
      else Step(Refresh(s.(records := rs)), true)
  }

  /** Setting a key leaves the rest of the record as it was. */
  lemma SetKeyOthers(m: Record, key: string, v: Value)
    ensures m[key := v] - {key} == m - {key}
  {
  }

  /** An update succeeds exactly when the user exists, and then the user's stored score is the
      clamped score; a current user's data shows it too. No other record's score changes. */
  lemma UpdateTrustSpec(s: Session, username: string, newScore: int)
    requires SessionOk(s)
    ensures var r := UpdateTrust(s, username, newScore);
      && (r.ok <==> FirstUser(s.records, Str(username)).Some?)
      && (!r.ok ==> r.session == s)
      && |r.session.records| == |s.records|
      && (r.ok ==>
            var i := FirstUser(s.records, Str(username)).value;
            && r.session.records[i][TrustScoreKey] == Num(TrustScore.Clamp(newScore))
            && r.session.records[i] - {TrustScoreKey} == s.records[i] - {TrustScoreKey}
            && (s.currentUser == Some(username) ==> r.session.userData[TrustScoreKey] == Num(TrustScore.Clamp(newScore))))
      && (forall j :: 0 <= j < |s.records| && (s.alias != Some(j) || s.currentUser != Some(username)) && FirstUser(s.records, Str(username)) != Some(j) ==>
            r.session.records[j] == s.records[j])
      && SessionOk(r.session)
  {
    match FirstUser(s.records, Str(username))
    case None =>
    case Some(i) =>
      var v := Num(TrustScore.Clamp(newScore));
      var rs := s.records[i := s.records[i][TrustScoreKey := v]];
      RecordsOkGrow(s.records, i, rs[i]);
      var r := UpdateTrust(s, username, newScore);
      SetKeyOthers(s.records[i], TrustScoreKey, v);
      if s.currentUser == Some(username) && s.alias.Some? {
        var k := s.alias.value;
        var d := rs[k][TrustScoreKey := v];
        RecordsOkGrow(rs, k, d);
        SetKeyOthers(rs[k], TrustScoreKey, v);
        assert r.session == s.(records := rs[k := d], userData := d);
      } else if s.currentUser == Some(username) {
        assert r.session == s.(records := rs, userData := s.userData[TrustScoreKey := v]);
      } else {
        assert r.session == Refresh(s.(records := rs));
      }
  }

  // ---------------------------------------------------------------- administration

  /** The username `is_admin` looks up: the argument, or else the current user. A missing name is
      Python's None, which matches only a record whose username is None. */
  function WhoKey(s: Session, who: Option<string>): Value {
    var name := if who.Some? then who else s.currentUser;
    if name.Some? then Str(name.value) else Null
  }

  /** `is_admin`: the looked-up user exists and has role "admin". */
  predicate IsAdmin(s: Session, who: Option<string>) {
    match FirstUser(s.records, WhoKey(s, who))
    case None => false
    case Some(i) => RoleKey in s.records[i] && s.records[i][RoleKey] == Str("admin")
  }

  /** The first record with the username has role "admin". */
  predicate FirstIsAdmin(rs: seq<Record>, name: string) {
    exists i :: 0 <= i < |rs| && HasUsername(rs[i], Str(name)) && IsAdminRecord(rs[i])
      && forall j :: 0 <= j < i ==> !HasUsername(rs[j], Str(name))
  }

  /** `get_all_users`: every record when the current user is an admin, nothing otherwise. Nobody
      logged in sees nothing, unless some record's username is itself None. */
  function GetAllUsers(s: Session): (r: seq<Record>)
    ensures r == [] || r == s.records
    ensures s.currentUser.Some? && FirstIsAdmin(s.records, s.currentUser.value) ==> r == s.records
    ensures s.currentUser.Some? && !FirstIsAdmin(s.records, s.currentUser.value) ==> r == []
    ensures s.currentUser.None? && (forall i :: 0 <= i < |s.records| ==> !HasUsername(s.records[i], Null)) ==> r == []
  {
    FirstUserSpec(s.records, WhoKey(s, None));
    if IsAdmin(s, None) then s.records else []
  }

  /** Over the seeded accounts: after the admin logs in every record is listed, and after the
      admin logs out none is. */
  lemma GetAllUsersFollowsSession(now: string)
    ensures var r := Login(Session(SeedRecords(), false, None, None, map[]), "admin", "admin123", now);
      r.ok && GetAllUsers(r.session) == r.session.records && |GetAllUsers(r.session)| == 3
    ensures var r := Login(Session(SeedRecords(), false, None, None, map[]), "admin", "admin123", now);
      GetAllUsers(Logout(r.session)) == []
  {
    var s0 := Session(SeedRecords(), false, None, None, map[]);
    SeedRecordsWellFormed();
    LoginFirstMatch(s0.records, 0, "admin", "admin123");
    var ra := Login(s0, "admin", "admin123", now);
    assert HasUsername(ra.session.records[0], Str("admin")) && IsAdminRecord(ra.session.records[0]);
    assert FirstIsAdmin(ra.session.records, "admin");
    forall i | 0 <= i < |Logout(ra.session).records| ensures !HasUsername(Logout(ra.session).records[i], Null) {
      assert Logout(ra.session).records[i][UsernameKey] == SeedRecords()[i][UsernameKey];
    }
  }

  /** Over the seeded accounts: after a member logs in no record is listed. */
  lemma GetAllUsersHidesFromMember(now: string)
    ensures var r := Login(Session(SeedRecords(), false, None, None, map[]), "sara", "sara123", now);
      r.ok && GetAllUsers(r.session) == []
  {
    var s0 := Session(SeedRecords(), false, None, None, map[]);
    SeedRecordsWellFormed();
    assert !HasUsername(SeedRecords()[0], Str("sara"));
    LoginFirstMatch(s0.records, 1, "sara", "sara123");
    var rb := Login(s0, "sara", "sara123", now);
    assert !IsAdminRecord(rb.session.records[1]);
    assert forall i :: 0 <= i < |rb.session.records| && i != 1 ==> !HasUsername(rb.session.records[i], Str("sara"));
  }

  /** `delete_user`: removes the first record with the username when the current user is an
      admin. A `user_data` that was the removed record stays a dictionary of its own. */
  function DeleteUser(s: Session, username: string): Step {
    if !IsAdmin(s, None) then Step(s, false)
    else match FirstUser(s.records, Str(username))
      case None => Step(s, false)
      case Some(i) => Step(s.(records := s.records[..i] + s.records[i + 1..], alias := ShiftAlias(s.alias, i)), true)
  }

  /** Where the record `user_data` is ends up once position `i` is deleted. */
  function ShiftAlias(alias: Option<nat>, i: nat): Option<nat> {
    match alias
    case None => None
    case Some(k) => if k == i then None else if k > i then Some(k - 1) else Some(k)
  }

  /** An admin deleting an existing user removes that user's first record. */
  lemma DeleteUserAt(s: Session, username: string, i: nat)
    requires IsAdmin(s, None) && FirstUser(s.records, Str(username)) == Some(i)
    ensures DeleteUser(s, username) == Step(s.(records := s.records[..i] + s.records[i + 1..], alias := ShiftAlias(s.alias, i)), true)
  {
  }

  /** Deleting fails, changing nothing, unless the current user is an admin and the username
      exists; otherwise exactly that user's first record is gone, the others keep their order, and
      the session stays well formed. */
  lemma DeleteUserSpec(s: Session, username: string)
    requires SessionOk(s)
    ensures var r := DeleteUser(s, username);
      && (r.ok <==> IsAdmin(s, None) && FirstUser(s.records, Str(username)).Some?)
      && (!r.ok ==> r.session == s)
      && (r.ok ==>
            var i := FirstUser(s.records, Str(username)).value;
            && r.session.records == s.records[..i] + s.records[i + 1..]
            && |r.session.records| == |s.records| - 1
            && r.session.userData == s.userData && r.session.currentUser == s.currentUser)
      && SessionOk(r.session)
  {
    if IsAdmin(s, None) && FirstUser(s.records, Str(username)).Some? {
      var i := FirstUser(s.records, Str(username)).value;
      DeleteUserAt(s, username, i);
      RecordsOkRemove(s.records, i);
      var rs := s.records[..i] + s.records[i + 1..];
      if s.alias.Some? && s.alias.value != i {
        var k := s.alias.value;
        assert rs[ShiftAlias(s.alias, i).value] == s.records[k];
      }
    }
  }

  // ---------------------------------------------------------------- checks and statistics

  const PasswordTooShort := "Password must be at least 6 characters long"
  const PasswordNeedsNumber := "Password must contain at least one number"
  const PasswordNeedsLetter := "Password must contain at least one letter"
  const PasswordStrong := "Password is strong"

  predicate HasDigit(p: string) { exists i :: 0 <= i < |p| && IsDigit(p[i]) }

  predicate HasLetter(p: string) { exists i :: 0 <= i < |p| && IsLetter(p[i]) }

  datatype Verdict = Verdict(ok: bool, message: string)

  /** `validate_password_strength`: the first failing check, in the order length, digit, letter. */
  function ValidatePasswordStrength(password: string): Verdict {
    if |password| < 6 then Verdict(false, PasswordTooShort)
    else if !HasDigit(password) then Verdict(false, PasswordNeedsNumber)
    else if !HasLetter(password) then Verdict(false, PasswordNeedsLetter)
    else Verdict(true, PasswordStrong)
  }

  /** A password is strong exactly when it has six characters, a digit and a letter, and each
      rejection names the first of those it lacks. */
  lemma ValidatePasswordStrengthSpec(password: string)
    ensures ValidatePasswordStrength(password).ok <==> |password| >= 6 && HasDigit(password) && HasLetter(password)
    ensures ValidatePasswordStrength(password).message == PasswordTooShort <==> |password| < 6
    ensures ValidatePasswordStrength(password).message == PasswordNeedsNumber <==> |password| >= 6 && !HasDigit(password)
    ensures ValidatePasswordStrength(password).message == PasswordNeedsLetter <==> |password| >= 6 && HasDigit(password) && !HasLetter(password)
  {
    assert |PasswordTooShort| == 43 && |PasswordNeedsNumber| == 41 && |PasswordNeedsLetter| == 41 && |PasswordStrong| == 18;
    assert PasswordNeedsNumber[35] == 'n' && PasswordNeedsLetter[35] == 'l';
  }

  predicate IsAdminRecord(r: Record) { RoleKey in r && r[RoleKey] == Str("admin") }

  /** The records with role "admin". */
  function AdminCount(rs: seq<Record>): (n: nat)
    ensures n <= |rs|
  {
    if rs == [] then 0 else (if IsAdminRecord(rs[0]) then 1 else 0) + AdminCount(rs[1..])
  }

  /** The records whose role is anything else, or missing. */
  function OtherCount(rs: seq<Record>): nat {
    if rs == [] then 0 else (if IsAdminRecord(rs[0]) then 0 else 1) + OtherCount(rs[1..])
  }

  datatype UserStats = UserStats(totalUsers: nat, adminUsers: nat, memberUsers: int)

  /** `get_user_statistics` without the average trust score. */
  function UserStatistics(rs: seq<Record>): UserStats {
    UserStats(|rs|, AdminCount(rs), |rs| - AdminCount(rs))
  }

  /** Admins and members add up to the total, and the member count is the number of non-admin
      records. */
  lemma {:induction false} UserStatisticsSpec(rs: seq<Record>)
    ensures var st := UserStatistics(rs);
      st.adminUsers + st.memberUsers == st.totalUsers && st.memberUsers == OtherCount(rs) && 0 <= st.memberUsers
  {
    if rs != [] {
      UserStatisticsSpec(rs[1..]);
    }
  }

  /** `validate_email`, applied to the raw text with the sign-up page's pattern: Python's `$` also
      matches just before a final newline. */
  predicate ValidateEmailAsset(email: string) {
    App.EmailShape(email) || (|email| > 0 && email[|email| - 1] == '\n' && App.EmailShape(email[..|email| - 1]))
  }

  /** `validate_phone`: "+92-ddd-ddddddd", "03dd-ddddddd" or "03ddddddddd", where Python's `$`
      also lets a final newline through. */
  predicate ValidatePhoneAsset(phone: string) {
    PhonePattern(phone) || (|phone| > 0 && phone[|phone| - 1] == '\n' && PhonePattern(phone[..|phone| - 1]))
  }

  predicate PhonePattern(s: string) {
    || (|s| == 15 && s[..4] == "+92-" && AllDigits(s[4..7]) && s[7] == '-' && AllDigits(s[8..]))
    || (|s| == 12 && s[..2] == "03" && AllDigits(s[2..4]) && s[4] == '-' && AllDigits(s[5..]))
    || (|s| == 11 && s[..2] == "03" && AllDigits(s[2..]))
  }

  /** A mobile number as the sign-up page formats it ("03dd-ddddddd") passes the asset's check. */
  lemma FormattedMobileAccepted(phone: string)
    requires App.PhoneShape(phone) && phone[1] == '3'
    ensures ValidatePhoneAsset(phone)
  {
    assert phone[..2] == "03";
    assert phone[2..4] == phone[1..4][1..];
  }

  // ---------------------------------------------------------------- the session store

  /** One user dictionary, shared by reference. */
  class UserRecord {
    var fields: Record

    constructor (fields: Record)
      ensures this.fields == fields
    {
      this.fields := fields;
    }

    /** The inner loop of `update_user_profile`: each key of `updates` the record already has is
        set; the order of the keys does not matter. */
    method WriteExisting(updates: Record)
      modifies this
      ensures fields == Overwrite(old(fields), updates)
    {
      var keys := updates.Keys;
      while keys != {}
        invariant fields.Keys == old(fields).Keys
        invariant forall k :: k in fields ==> fields[k] == if k in updates && k !in keys then updates[k] else old(fields)[k]
        decreases keys
      {
        var k :| k in keys;
        if k in fields {
          fields := fields[k := updates[k]];
        }
        keys := keys - {k};
      }
    }
  }

  /** The records' contents, in list order. */
  ghost function FieldsOf(us: seq<UserRecord>): (rs: seq<Record>)
    reads us
    ensures |rs| == |us| && forall i :: 0 <= i < |us| ==> rs[i] == us[i].fields
  {
    seq(|us|, i reads us requires 0 <= i < |us| => us[i].fields)
  }

  lemma FieldsOfAppend(us: seq<UserRecord>, u: UserRecord)
    ensures FieldsOf(us + [u]) == FieldsOf(us) + [u.fields]
  {
    var a := FieldsOf(us + [u]);
    assert forall j :: 0 <= j < |a| ==> a[j] == (us + [u])[j].fields;
  }

  /** Removing position `i` from distinct records keeps them distinct, drops exactly `us[i]`,
      and moves the later records down by one. */
  lemma RemoveDistinct(us: seq<UserRecord>, i: nat)
    requires i < |us| && forall a, b :: 0 <= a < b < |us| ==> us[a] != us[b]
    ensures var vs := us[..i] + us[i + 1..];
      && (forall a, b :: 0 <= a < b < |vs| ==> vs[a] != vs[b])
      && us[i] !in vs
      && (forall j :: 0 <= j < |vs| ==> vs[j] == if j < i then us[j] else us[j + 1])
  {
    var vs := us[..i] + us[i + 1..];
    assert forall j :: 0 <= j < |vs| ==> vs[j] == if j < i then us[j] else us[j + 1];
  }

  /** Removing position `i` from distinct records keeps them distinct, and `ShiftAlias` still
      says where `userData` is among them. */
  lemma RemoveKeepsAlias(us: seq<UserRecord>, i: nat, alias: Option<nat>, userData: UserRecord)
    requires i < |us| && forall a, b :: 0 <= a < b < |us| ==> us[a] != us[b]
    requires alias.Some? ==> alias.value < |us| && userData == us[alias.value]
    requires alias.None? ==> userData !in us
    ensures var vs := us[..i] + us[i + 1..];
      && var a := ShiftAlias(alias, i);
      && (forall x, y :: 0 <= x < y < |vs| ==> vs[x] != vs[y])
      && (a.Some? ==> a.value < |vs| && userData == vs[a.value])
      && (a.None? ==> userData !in vs)
  {
    RemoveDistinct(us, i);
  }

  lemma FieldsOfRemove(us: seq<UserRecord>, i: nat)
    requires i < |us|
    ensures FieldsOf(us[..i] + us[i + 1..]) == FieldsOf(us)[..i] + FieldsOf(us)[i + 1..]
  {
    var vs := us[..i] + us[i + 1..];
    var a := FieldsOf(vs);
    var b := FieldsOf(us);
    var c := b[..i] + b[i + 1..];
    assert |a| == |c|;
    forall j | 0 <= j < |a|
      ensures a[j] == c[j]
    {
      if j < i {
        assert vs[j] == us[j] && c[j] == b[j];
      } else {
        assert vs[j] == us[j + 1] && c[j] == b[j + 1];
      }
    }
  }

  class AuthSession {
    var users: seq<UserRecord>
    var authenticated: bool
    var currentUser: Option<string>
    var userData: UserRecord
    /** The position of the record `userData` is, if any. */
    ghost var alias: Option<nat>

    ghost predicate Valid()
      reads this, users, userData
    {
      && (forall i, j :: 0 <= i < j < |users| ==> users[i] != users[j])
      && (alias.Some? ==> alias.value < |users| && userData == users[alias.value])
      && (alias.None? ==> userData !in users)
      && RecordsOk(FieldsOf(users))
    }

    ghost function State(): Session
      reads this, users, userData
    {
      Session(FieldsOf(users), authenticated, currentUser, alias, userData.fields)
    }

    lemma ValidState()
      requires Valid()
      ensures SessionOk(State())
    {
    }

    /** `initialize_session_state`: the three demo users, nobody logged in. */
    constructor ()
      ensures Valid() && fresh(users) && fresh(userData)
      ensures State() == Session(SeedRecords(), false, None, None, map[])
    {
      var admin := new UserRecord(AdminSeed);
      var sara := new UserRecord(SaraSeed);
      var hassan := new UserRecord(HassanSeed);
      users := [admin, sara, hassan];
      authenticated := false;
      currentUser := None;
      userData := new UserRecord(map[]);
      alias := None;
      new;
      assert forall i, j :: 0 <= i < j < |users| ==> users[i] != users[j];
      assert userData !in users;
      assert FieldsOf(users) == SeedRecords();
      assert RecordsOk(FieldsOf(users)) by {
        SeedRecordsWellFormed();
      }
    }

    /** The position of the first record with the username. */
    method FindUser(key: Value) returns (found: Option<nat>)
      ensures found == FirstUser(FieldsOf(users), key)
    {
      ghost var rs := FieldsOf(users);
      var i := 0;
      while i < |users|
        invariant 0 <= i <= |users|
        invariant forall j :: 0 <= j < i ==> !HasUsername(rs[j], key)
      {
        if UsernameKey in users[i].fields && users[i].fields[UsernameKey] == key {
          FirstUserAt(rs, i, key);
          return Some(i);
        }
        i := i + 1;
      }
      FirstUserSpec(rs, key);
      return None;
    }

    /** The scan of `login_user`: the first record matching both username and password. */
    method FindLogin(username: string, password: string) returns (found: Option<nat>)
      ensures found == LoginIndex(FieldsOf(users), username, password)
    {
      ghost var rs := FieldsOf(users);
      var i := 0;
      while i < |users|
        invariant 0 <= i <= |users|
        invariant forall j :: 0 <= j < i ==> !(HasUsername(rs[j], Str(username)) && PasswordMatches(rs[j], password))
      {
        var f := users[i].fields;
        if UsernameKey in f && f[UsernameKey] == Str(username) && PasswordKey in f && f[PasswordKey] == Str(Sha256Hex(password)) {
          LoginFirstMatch(rs, i, username, password);
          return Some(i);
        }
        i := i + 1;
      }
      LoginIndexSpec(rs, username, password);
      return None;
    }

    /** `users[i] = f`, one record written in place. */
    method SetRecord(i: nat, f: Record)
      requires i < |users| && forall a, b :: 0 <= a < b < |users| ==> users[a] != users[b]
      modifies users[i]
      ensures FieldsOf(users) == old(FieldsOf(users))[i := f]
    {
      users[i].fields := f;
      assert forall j :: 0 <= j < |users| ==> FieldsOf(users)[j] == old(FieldsOf(users))[i := f][j];
    }

    /** The inner loop of `update_user_profile` on record `i`. */
    method OverwriteRecord(i: nat, updates: Record)
      requires i < |users| && forall a, b :: 0 <= a < b < |users| ==> users[a] != users[b]
      modifies users[i]
      ensures FieldsOf(users) == old(FieldsOf(users))[i := Overwrite(old(users[i].fields), updates)]
    {
      users[i].WriteExisting(updates);
      assert forall j :: 0 <= j < |users| ==> FieldsOf(users)[j] == old(FieldsOf(users))[i := users[i].fields][j];
    }

    /** Writes `user_data`, and through it the record it is, if any. */
    method SetData(f: Record)
      requires forall a, b :: 0 <= a < b < |users| ==> users[a] != users[b]
      requires alias.Some? ==> alias.value < |users| && userData == users[alias.value]
      requires alias.None? ==> userData !in users
      modifies userData
      ensures userData.fields == f
      ensures alias.Some? ==> FieldsOf(users) == old(FieldsOf(users))[alias.value := f]
      ensures alias.None? ==> FieldsOf(users) == old(FieldsOf(users))
    {
      userData.fields := f;
      if alias.Some? {
        assert forall j :: 0 <= j < |users| ==> FieldsOf(users)[j] == old(FieldsOf(users))[alias.value := f][j];
      } else {
        assert forall j :: 0 <= j < |users| ==> FieldsOf(users)[j] == old(FieldsOf(users))[j];
      }
    }

    /** Sets the three session fields; no record changes. */
    method SetSession(auth: bool, user: Option<string>, data: UserRecord, ghost position: Option<nat>)
      modifies this
      ensures authenticated == auth && currentUser == user && userData == data && alias == position
      ensures users == old(users) && FieldsOf(users) == old(FieldsOf(users)) && data.fields == old(data.fields)
    {
      authenticated := auth;
      currentUser := user;
      userData := data;
      alias := position;
    }

    /** `users.append(u)` */
    method AppendUser(u: UserRecord)
      modifies this
      ensures users == old(users) + [u] && FieldsOf(users) == old(FieldsOf(users)) + [u.fields]
      ensures authenticated == old(authenticated) && currentUser == old(currentUser) && alias == old(alias)
      ensures userData == old(userData) && userData.fields == old(userData.fields)
    {
      FieldsOfAppend(users, u);
      users := users + [u];
    }

    /** `del users[i]`, with `alias` following the moved records. */
    method RemoveAt(i: nat, ghost position: Option<nat>)
      requires i < |users|
      modifies this
      ensures users == old(users[..i] + users[i + 1..]) && FieldsOf(users) == old(FieldsOf(users)[..i] + FieldsOf(users)[i + 1..])
      ensures authenticated == old(authenticated) && currentUser == old(currentUser) && alias == position
      ensures userData == old(userData) && userData.fields == old(userData.fields)
    {
      FieldsOfRemove(users, i);
      users := users[..i] + users[i + 1..];
      alias := position;
    }

    method LoginUser(username: string, password: string, now: string) returns (ok: bool)
      requires Valid()
      modifies this, users
      ensures Valid()
      ensures State() == Login(old(State()), username, password, now).session
      ensures ok == Login(old(State()), username, password, now).ok
    {
      ghost var s0 := State();
      var found := FindLogin(username, password);
      if found.None? {
        return false;
      }
      var i := found.value;
      SetRecord(i, users[i].fields[LastLoginKey := Str(now)]);
      ghost var rs := s0.records[i := s0.records[i][LastLoginKey := Str(now)]];
      RecordsOkGrow(s0.records, i, s0.records[i][LastLoginKey := Str(now)]);
      SetSession(true, Some(username), users[i], Some(i));
      assert State() == Session(rs, true, Some(username), Some(i), rs[i]);
      return true;
    }

    method RegisterUser(username: string, password: string, fullName: string, email: string, phone: string, role: string,
                        today: string) returns (ok: bool)
      requires Valid()
      modifies this
      ensures Valid()
      ensures State() == Register(old(State()), username, password, fullName, email, phone, role, today).session
      ensures ok == Register(old(State()), username, password, fullName, email, phone, role, today).ok
    {
      ghost var s0 := State();
      var found := FindUser(Str(username));
      if found.Some? {
        return false;
      }
      var record := NewUser(username, password, fullName, email, phone, role, today);
      NewUserOk(username, password, fullName, email, phone, role, today);
      var u := new UserRecord(record);
      AppendUser(u);
      RecordsOkAppend(s0.records, record);
      assert State() == s0.(records := s0.records + [record]);
      return true;
    }

    method LogoutUser()
      requires Valid()
      modifies this
      ensures Valid()
      ensures State() == Logout(old(State()))
    {
      var empty := new UserRecord(map[]);
      SetSession(false, None, empty, None);
    }

    method UpdateUserProfile(username: string, updates: Record) returns (ok: bool)
      requires Valid()
      modifies users, userData
      ensures Valid()
      ensures State() == UpdateProfile(old(State()), username, updates).session
      ensures ok == UpdateProfile(old(State()), username, updates).ok
    {
      ghost var s0 := State();
      var found := FindUser(Str(username));
      if found.None? {
        return false;
      }
      var i := found.value;
      OverwriteRecord(i, updates);
      ghost var rs := s0.records[i := Overwrite(s0.records[i], updates)];
      assert FieldsOf(users) == rs;
      RecordsOkGrow(s0.records, i, rs[i]);
      if currentUser == Some(username) {
        SetData(userData.fields + updates);
        if alias.Some? {
          ghost var d := rs[alias.value] + updates;
          RecordsOkGrow(rs, alias.value, d);
          assert State() == s0.(records := rs[alias.value := d], userData := d);
        } else {
          assert State() == s0.(records := rs, userData := s0.userData + updates);
        }
      } else {
        assert State() == Refresh(s0.(records := rs));
      }
      return true;
    }

    method ChangeUserPassword(username: string, oldPassword: string, newPassword: string) returns (ok: bool)
      requires Valid()
      modifies users
      ensures Valid()
      ensures State() == ChangePassword(old(State()), username, oldPassword, newPassword).session
      ensures ok == ChangePassword(old(State()), username, oldPassword, newPassword).ok
    {
      ghost var s0 := State();
      var found := FindUser(Str(username));
      if found.None? {
        return false;
      }
      var i := found.value;
      var f := users[i].fields;
      if PasswordKey in f && f[PasswordKey] == Str(Sha256Hex(oldPassword)) {
        SetRecord(i, f[PasswordKey := Str(Sha256Hex(newPassword))]);
        RecordsOkGrow(s0.records, i, f[PasswordKey := Str(Sha256Hex(newPassword))]);
        return true;
      }
      return false;
    }

    method UpdateTrustScore(username: string, newScore: int) returns (ok: bool)
      requires Valid()
      modifies users, userData
      ensures Valid()
      ensures State() == UpdateTrust(old(State()), username, newScore).session
      ensures ok == UpdateTrust(old(State()), username, newScore).ok
    {
      ghost var s0 := State();
      var found := FindUser(Str(username));
      if found.None? {
        return false;
      }
      var i := found.value;
      var score := if newScore < 0 then 0 else if newScore > 100 then 100 else newScore;
      assert score == TrustScore.Clamp(newScore);
      SetRecord(i, users[i].fields[TrustScoreKey := Num(score)]);
      ghost var rs := s0.records[i := s0.records[i][TrustScoreKey := Num(score)]];
      assert FieldsOf(users) == rs;
      RecordsOkGrow(s0.records, i, rs[i]);
      if currentUser == Some(username) {
        SetData(userData.fields[TrustScoreKey := users[i].fields[TrustScoreKey]]);
        if alias.Some? {
          ghost var d := rs[alias.value][TrustScoreKey := Num(score)];
          RecordsOkGrow(rs, alias.value, d);
          assert State() == s0.(records := rs[alias.value := d], userData := d);
        } else {
          assert State() == s0.(records := rs, userData := s0.userData[TrustScoreKey := Num(score)]);
        }
      } else {
        assert State() == Refresh(s0.(records := rs));
      }
      return true;
    }

    method IsAdminUser(who: Option<string>) returns (admin: bool)
      ensures admin == IsAdmin(State(), who)
    {
      var name := if who.Some? then who else currentUser;
      var found := FindUser(if name.Some? then Str(name.value) else Null);
      if found.None? {
        return false;
      }
      var user := users[found.value];
      return RoleKey in user.fields && user.fields[RoleKey] == Str("admin");
    }

    method DeleteUserAccount(username: string) returns (ok: bool)
      requires Valid()
      modifies this
      ensures Valid()
      ensures State() == DeleteUser(old(State()), username).session
      ensures ok == DeleteUser(old(State()), username).ok
    {
      ghost var s0 := State();
      var admin := IsAdminUser(None);
      if !admin {
        return false;
      }
      var found := FindUser(Str(username));
      if found.None? {
        return false;
      }
      var i := found.value;
      RemoveKeepsAlias(users, i, alias, userData);
      DeleteUserAt(s0, username, i);
      RecordsOkRemove(s0.records, i);
      RemoveAt(i, ShiftAlias(alias, i));
      return true;
    }
  }

  /** A record as the demo seed writes it: no `last_login` yet. */
  function SeedUser(username: string, password: string, fullName: string, email: string, phone: string, role: string,
                    trustScore: int, created: string): Record
  {
    map[UsernameKey := Str(username), PasswordKey := Str(Sha256Hex(password)), "full_name" := Str(fullName),
        "email" := Str(email), "phone" := Str(phone), RoleKey := Str(role), TrustScoreKey := Num(trustScore),
        "created_date" := Str(created)]
  }

  const AdminSeed := SeedUser("admin", "admin123", "Ahmed Ali Khan", "ahmed@example.com", "+92-300-1234567", "admin", 95, "2024-01-15")
  const SaraSeed := SeedUser("sara", "sara123", "Sara Fatima", "sara@example.com", "+92-321-9876543", "member", 88, "2024-02-20")
  const HassanSeed := SeedUser("hassan", "hassan123", "Hassan Ahmed", "hassan@example.com", "+92-333-5555555", "member", 92, "2024-03-10")

  function SeedRecords(): seq<Record> {
    [AdminSeed, SaraSeed, HassanSeed]
  }

  lemma SeedUserOk(username: string, password: string, fullName: string, email: string, phone: string, role: string,
                   trustScore: int, created: string)
    ensures var r := SeedUser(username, password, fullName, email, phone, role, trustScore, created);
      UsernameKey in r && PasswordKey in r && r[RoleKey] == Str(role) && r[TrustScoreKey] == Num(trustScore)
  {
  }

  lemma SeedRecordsWellFormed()
    ensures RecordsOk(SeedRecords())
  {
    SeedUserOk("admin", "admin123", "Ahmed Ali Khan", "ahmed@example.com", "+92-300-1234567", "admin", 95, "2024-01-15");
    SeedUserOk("sara", "sara123", "Sara Fatima", "sara@example.com", "+92-321-9876543", "member", 88, "2024-02-20");
    SeedUserOk("hassan", "hassan123", "Hassan Ahmed", "hassan@example.com", "+92-333-5555555", "member", 92, "2024-03-10");
  }

  /** The seed is well formed: three users, exactly one of them the admin. */
  lemma SeedRecordsOk()
    ensures RecordsOk(SeedRecords())
    ensures AdminCount(SeedRecords()) == 1
  {
    SeedUserOk("admin", "admin123", "Ahmed Ali Khan", "ahmed@example.com", "+92-300-1234567", "admin", 95, "2024-01-15");
    SeedUserOk("sara", "sara123", "Sara Fatima", "sara@example.com", "+92-321-9876543", "member", 88, "2024-02-20");
    SeedUserOk("hassan", "hassan123", "Hassan Ahmed", "hassan@example.com", "+92-333-5555555", "member", 92, "2024-03-10");
  }

  /** A username scan stopping at `i` returns `i`. */
  lemma {:induction false} FirstUserAt(rs: seq<Record>, i: nat, key: Value)
    requires i < |rs| && HasUsername(rs[i], key)
    requires forall j :: 0 <= j < i ==> !HasUsername(rs[j], key)
    ensures FirstUser(rs, key) == Some(i)
  {
    if i > 0 {
      FirstUserAt(rs[1..], i - 1, key);
    }
  }

  /** A login scan stopping at `i` returns `i`. */
  lemma {:induction false} LoginFirstMatch(rs: seq<Record>, i: nat, username: string, password: string)
    requires i < |rs| && HasUsername(rs[i], Str(username)) && PasswordMatches(rs[i], password)
    requires forall j :: 0 <= j < i ==> !(HasUsername(rs[j], Str(username)) && PasswordMatches(rs[j], password))
    ensures LoginIndex(rs, username, password) == Some(i)
  {
    if i > 0 {
      LoginFirstMatch(rs[1..], i - 1, username, password);
    }
  }
}
