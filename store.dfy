/**
 * The repository of users, committees, memberships and invitations, as the in-memory
 * fallback path of `DatabaseManager` keeps it: four dictionaries keyed by generated ids.
 *
 * Each state-changing operation is a method of the class `DatabaseManager` whose new
 * state is tied to a transition function on a snapshot of the four tables (`Tables`);
 * the lemmas about those functions state what the operations promise: position density,
 * capacity, the admin at position 1, cascading deletion, invitation handling.
 * Fresh uuid4 ids are drawn from the counter `nextId`.
 */
module Store {
  import opened Wrappers
  import opened Models
  import Hashing

  datatype Invitation = Invitation(
    id: Id,
    committeeId: Id,
    invitedUserId: Id,
    invitedById: Id,
    invitationDate: int,
    status: string,
    message: Option<string>,
    responseDate: Option<int>)

  /** What a successful login or a user lookup returns: the account without its digest. */
  datatype UserInfo = UserInfo(
    id: Id, username: string, fullName: string, email: string, phone: string,
    role: string, trustScore: int, cnic: Option<string>)

  function InfoOf(u: User): UserInfo {
    UserInfo(u.id, u.username, u.fullName, u.email, u.phone, u.role, u.trustScore, u.cnic)
  }

  /** One entry of a user's pending-invitation list. */
  datatype InvitationInfo = InvitationInfo(
    id: Id, committeeTitle: string, committeeId: Id, invitedById: Id,
    invitationDate: int, message: Option<string>)

  function InvitationInfoOf(inv: Invitation, committeeTitle: string): InvitationInfo {
    InvitationInfo(inv.id, committeeTitle, inv.committeeId, inv.invitedById, inv.invitationDate, inv.message)
  }

  /** A snapshot of the store's tables and of its id counter. */
  datatype Tables = Tables(
    users: map<Id, User>,
    committees: map<Id, Committee>,
    members: map<Id, CommitteeMember>,
    invitations: map<Id, Invitation>,
    nextId: nat)

  /** The result of an operation: the new tables and the boolean the operation returns. */
  datatype Outcome = Outcome(tables: Tables, ok: bool)

  // ---------------------------------------------------------------- invariants

  ghost predicate IsMemberIn(ms: map<Id, CommitteeMember>, cid: Id, uid: Id) {
    exists m :: m in ms && ms[m].committeeId == cid && ms[m].userId == uid
  }

  /** A committee `get_public_committees_for_user` offers: public, not full, not yet joined. */
  ghost predicate OpenTo(ms: map<Id, CommitteeMember>, c: Committee, uid: Id) {
    c.committeeType == "public" && c.currentMembers < c.totalMembers && !IsMemberIn(ms, c.id, uid)
  }

  ghost predicate HasMemberAt(ms: map<Id, CommitteeMember>, cid: Id, p: int) {
    exists m :: m in ms && ms[m].committeeId == cid && ms[m].position == p
  }

  /** The payout positions taken in committee `cid`. */
  ghost function Positions(ms: map<Id, CommitteeMember>, cid: Id): set<int> {
    set m | m in ms && ms[m].committeeId == cid :: ms[m].position
  }

  /** The ids of the memberships of committee `cid`. */
  ghost function MembershipsOf(ms: map<Id, CommitteeMember>, cid: Id): set<Id> {
    set m | m in ms && ms[m].committeeId == cid
  }

  /** The positions 1..n. */
  ghost function Range1(n: int): set<int>
    decreases n
  {
    if n <= 0 then {} else Range1(n - 1) + {n}
  }

  lemma {:induction false} RangeMembers(n: int)
    ensures forall p :: p in Range1(n) <==> 1 <= p <= n
    ensures n >= 0 ==> |Range1(n)| == n
    decreases n
  {
    if n > 0 {
      RangeMembers(n - 1);
    }
  }

  ghost predicate IdsBelow(t: Tables) {
    && (forall k :: k in t.users ==> t.users[k].id == k && k < t.nextId)
    && (forall k :: k in t.committees ==> t.committees[k].id == k && k < t.nextId)
    && (forall k :: k in t.members ==> t.members[k].id == k && k < t.nextId)
    && (forall k :: k in t.invitations ==> t.invitations[k].id == k && k < t.nextId)
  }

  ghost predicate UsernamesUnique(us: map<Id, User>) {
    forall a, b :: a in us && b in us && us[a].username == us[b].username ==> a == b
  }

  /** A membership refers to a stored committee, its position lies in 1..current_members,
      and position 1 belongs to the committee's admin. */
  ghost predicate MemberFits(t: Tables, m: CommitteeMember) {
    && m.committeeId in t.committees
    && 1 <= m.position <= t.committees[m.committeeId].currentMembers
    && (m.position == 1 ==> m.userId == t.committees[m.committeeId].adminId)
  }

  ghost predicate PositionsDense(t: Tables) {
    forall c, p :: c in t.committees && 1 <= p <= t.committees[c].currentMembers ==> HasMemberAt(t.members, c, p)
  }

  /** The structural invariant of the store. */
  ghost predicate TablesValid(t: Tables) {
    && IdsBelow(t)
    && UsernamesUnique(t.users)
    && (forall k :: k in t.users ==> TrustScoreInRange(t.users[k].trustScore))
    && (forall m :: m in t.members ==> MemberFits(t, t.members[m]))
    && MembershipsUnique(t.members)
    && (forall c :: c in t.committees ==> t.committees[c].currentMembers >= 1)
    && PositionsDense(t)
  }

  /** No committee holds more members than it was sized for. */
  ghost predicate WithinCapacity(t: Tables) {
    forall c :: c in t.committees ==> t.committees[c].currentMembers <= t.committees[c].totalMembers
  }

  /** In a valid store, the positions of a committee are exactly 1..current_members, each taken
      by exactly one membership. */
  lemma PositionsExact(t: Tables, cid: Id)
    requires TablesValid(t) && cid in t.committees
    ensures Positions(t.members, cid) == Range1(t.committees[cid].currentMembers)
    ensures |MembershipsOf(t.members, cid)| == t.committees[cid].currentMembers
  {
    var n := t.committees[cid].currentMembers;
    RangeMembers(n);
    forall p | p in Range1(n) ensures p in Positions(t.members, cid) {
      assert HasMemberAt(t.members, cid, p);
      var m :| m in t.members && t.members[m].committeeId == cid && t.members[m].position == p;
    }
    forall p | p in Positions(t.members, cid) ensures p in Range1(n) {
      var m :| m in t.members && t.members[m].committeeId == cid && t.members[m].position == p;
      assert MemberFits(t, t.members[m]);
    }
    var ids := MembershipsOf(t.members, cid);
    CardinalityOfPositions(t.members, cid, ids);
    assert Positions(t.members, cid) == set m | m in ids :: t.members[m].position;
  }

  /** Distinct memberships of one committee have distinct positions, so there are as many
      memberships as positions. */
  lemma {:induction false} CardinalityOfPositions(ms: map<Id, CommitteeMember>, cid: Id, ids: set<Id>)
    requires MembershipsUnique(ms)
    requires ids <= MembershipsOf(ms, cid)
    ensures |(set m | m in ids :: ms[m].position)| == |ids|
  {
    if ids != {} {
      var m0 :| m0 in ids;
      var rest := ids - {m0};
      CardinalityOfPositions(ms, cid, rest);
      var restPositions := set m | m in rest :: ms[m].position;
      assert ms[m0].position !in restPositions;
      assert (set m | m in ids :: ms[m].position) == restPositions + {ms[m0].position};
    }
  }

  /** In a valid store a membership holds position 1 exactly when it is the admin's. */
  lemma AdminAtPositionOne(t: Tables, m: Id)
    requires TablesValid(t) && m in t.members
    ensures var c := t.members[m].committeeId;
      c in t.committees && (t.members[m].position == 1 <==> t.members[m].userId == t.committees[c].adminId)
  {
    var c := t.members[m].committeeId;
    assert MemberFits(t, t.members[m]);
    if t.members[m].userId == t.committees[c].adminId {
      assert HasMemberAt(t.members, c, 1);
      var a :| a in t.members && t.members[a].committeeId == c && t.members[a].position == 1;
      assert MemberFits(t, t.members[a]);
    }
  }

  /** The admin of a committee in a valid store is one of its members. */
  lemma AdminIsMember(t: Tables, cid: Id)
    requires TablesValid(t) && cid in t.committees
    ensures IsMemberIn(t.members, cid, t.committees[cid].adminId)
  {
    assert HasMemberAt(t.members, cid, 1);
    var m :| m in t.members && t.members[m].committeeId == cid && t.members[m].position == 1;
    assert MemberFits(t, t.members[m]);
  }

  // ---------------------------------------------------------------- users

  ghost predicate UsernameTaken(us: map<Id, User>, username: string) {
    exists k :: k in us && us[k].username == username
  }

  function NewUser(id: Id, username: string, password: string, fullName: string, email: string,
                   phone: string, role: string, cnic: Option<string>, now: int): User
  {
    User(id, username, Hashing.Sha256Hex(password), fullName, email, phone, role, cnic, DefaultTrustScore, now)
  }

  /** `create_user`: refused when the username is taken, otherwise one new account at trust 85. */
  ghost function CreateUserOutcome(t: Tables, username: string, password: string, fullName: string, email: string,
                            phone: string, role: string, cnic: Option<string>, now: int): Outcome
  {
    if UsernameTaken(t.users, username) then Outcome(t, false)
    else Outcome(t.(users := t.users[t.nextId := NewUser(t.nextId, username, password, fullName, email, phone, role, cnic, now)],
                    nextId := t.nextId + 1), true)
  }

  /** A refused creation changes nothing; an accepted one adds exactly one account under the next,
      unused id, with the username, the password's digest, the role and trust 85. */
  lemma CreateUserSpec(t: Tables, username: string, password: string, fullName: string, email: string,
                       phone: string, role: string, cnic: Option<string>, now: int)
    requires IdsBelow(t)
    ensures var r := CreateUserOutcome(t, username, password, fullName, email, phone, role, cnic, now);
      (r.ok <==> !UsernameTaken(t.users, username)) && (!r.ok ==> r.tables == t)
    ensures var r := CreateUserOutcome(t, username, password, fullName, email, phone, role, cnic, now);
      r.ok ==> && |r.tables.users| == |t.users| + 1
               && t.nextId !in t.users && t.nextId in r.tables.users
               && r.tables.users[t.nextId].trustScore == DefaultTrustScore
               && r.tables.users[t.nextId].username == username
               && r.tables.users[t.nextId].passwordHash == Hashing.Sha256Hex(password)
               && r.tables.users[t.nextId].role == role
  {
    if !UsernameTaken(t.users, username) {
      var u := NewUser(t.nextId, username, password, fullName, email, phone, role, cnic, now);
      var us := t.users[t.nextId := u];
      assert t.nextId !in t.users;
      assert |us| == |t.users| + 1;
    }
  }

  /** Creating an account touches no other account and no other table. */
  lemma CreateUserFrame(t: Tables, username: string, password: string, fullName: string, email: string,
                        phone: string, role: string, cnic: Option<string>, now: int)
    ensures var r := CreateUserOutcome(t, username, password, fullName, email, phone, role, cnic, now);
      r.ok ==> && r.tables.users.Keys == t.users.Keys + {t.nextId}
               && (forall k :: k in t.users && k != t.nextId ==> r.tables.users[k] == t.users[k])
    ensures var r := CreateUserOutcome(t, username, password, fullName, email, phone, role, cnic, now);
      r.tables.committees == t.committees && r.tables.members == t.members && r.tables.invitations == t.invitations
  {
  }

  /** Creating an account keeps the store valid. */
  lemma CreateUserKeepsValid(t: Tables, username: string, password: string, fullName: string, email: string,
                             phone: string, role: string, cnic: Option<string>, now: int)
    requires TablesValid(t)
    ensures TablesValid(CreateUserOutcome(t, username, password, fullName, email, phone, role, cnic, now).tables)
  {
    var r := CreateUserOutcome(t, username, password, fullName, email, phone, role, cnic, now);
    if r.ok {
      assert t.nextId !in t.users;
      var t' := r.tables;
      var u := NewUser(t.nextId, username, password, fullName, email, phone, role, cnic, now);
      assert t'.users == t.users[t.nextId := u];
      assert t'.users.Keys == t.users.Keys + {t.nextId};
      assert u.id == t.nextId && u.username == username;
      assert IdsBelow(t');
      assert UsernamesUnique(t'.users);
      assert TrustScoreInRange(u.trustScore);
      ValidWithOtherUsers(t, t');
    }
  }

  /** Validity does not look at the users beyond their ids and usernames. */
  lemma ValidWithOtherUsers(t: Tables, t': Tables)
    requires TablesValid(t) && IdsBelow(t') && UsernamesUnique(t'.users)
    requires forall k :: k in t'.users ==> TrustScoreInRange(t'.users[k].trustScore)
    requires t'.committees == t.committees && t'.members == t.members
    ensures TablesValid(t')
  {
    forall m | m in t'.members ensures MemberFits(t', t'.members[m]) {
      assert MemberFits(t, t.members[m]);
    }
    forall c, p | c in t'.committees && 1 <= p <= t'.committees[c].currentMembers
      ensures HasMemberAt(t'.members, c, p)
    {
      assert HasMemberAt(t.members, c, p);
    }
  }

  // ---------------------------------------------------------------- committees

  function NewCommittee(id: Id, title: string, description: Option<string>, monthlyAmount: int,
                        totalMembers: int, duration: int, committeeType: string, category: string,
                        paymentFrequency: string, adminId: Id, now: int): Committee
  {
    Committee(id, title, description, monthlyAmount, totalMembers, 1, duration, committeeType,
              category, paymentFrequency, CommitteeStatusValue(Active), adminId, now)
  }

  /** `create_committee`: the committee (one member, active) and the admin's membership at
      position 1. The in-memory path checks none of the arguments. */
  ghost function CreateCommitteeOutcome(t: Tables, title: string, description: Option<string>, monthlyAmount: int,
                                 totalMembers: int, duration: int, committeeType: string, category: string,
                                 paymentFrequency: string, adminId: Id, now: int): Outcome
  {
    var cid := t.nextId;
    var mid := t.nextId + 1;
    Outcome(t.(committees := t.committees[cid := NewCommittee(cid, title, description, monthlyAmount, totalMembers,
                                                              duration, committeeType, category, paymentFrequency, adminId, now)],
               members := t.members[mid := CommitteeMember(mid, cid, adminId, 1, now)],
               nextId := t.nextId + 2), true)
  }

  /** A created committee is new, active, and holds one membership: its admin's, at position 1. */
  lemma CreateCommitteeSpec(t: Tables, title: string, description: Option<string>, monthlyAmount: int,
                            totalMembers: int, duration: int, committeeType: string, category: string,
                            paymentFrequency: string, adminId: Id, now: int)
    requires TablesValid(t)
    ensures var r := CreateCommitteeOutcome(t, title, description, monthlyAmount, totalMembers, duration,
                                     committeeType, category, paymentFrequency, adminId, now);
      var cid := t.nextId;
      && r.ok
      && cid !in t.committees && cid in r.tables.committees
      && r.tables.committees[cid].currentMembers == 1
      && r.tables.committees[cid].status == "active"
      && r.tables.committees[cid].title == title
      && r.tables.committees[cid].monthlyAmount == monthlyAmount
      && r.tables.committees[cid].totalMembers == totalMembers
      && r.tables.committees[cid].adminId == adminId
      && MembershipsOf(r.tables.members, cid) == {t.nextId + 1}
      && t.nextId + 1 !in t.members
      && r.tables.members[t.nextId + 1].userId == adminId
      && r.tables.members[t.nextId + 1].position == 1
      && r.tables.committees.Keys == t.committees.Keys + {cid}
      && (forall c :: c in t.committees ==> r.tables.committees[c] == t.committees[c])
      && r.tables.members.Keys == t.members.Keys + {t.nextId + 1}
      && (forall m :: m in t.members ==> r.tables.members[m] == t.members[m])
      && r.tables.users == t.users && r.tables.invitations == t.invitations
  {
    var t' := CreateCommitteeOutcome(t, title, description, monthlyAmount, totalMembers, duration,
                                     committeeType, category, paymentFrequency, adminId, now).tables;
    var cid, mid := t.nextId, t.nextId + 1;
    forall m | m in t.members ensures t.members[m].committeeId != cid {
      assert MemberFits(t, t.members[m]);
    }
    assert MembershipsOf(t'.members, cid) == {mid};
  }

  /** Creating a committee keeps the store valid; it keeps every committee within capacity when
      the new one is sized for at least its admin. */
  lemma CreateCommitteeKeepsValid(t: Tables, title: string, description: Option<string>, monthlyAmount: int,
                                  totalMembers: int, duration: int, committeeType: string, category: string,
                                  paymentFrequency: string, adminId: Id, now: int)
    requires TablesValid(t)
    ensures var t' := CreateCommitteeOutcome(t, title, description, monthlyAmount, totalMembers, duration,
                                             committeeType, category, paymentFrequency, adminId, now).tables;
      && TablesValid(t')
      && (WithinCapacity(t) && totalMembers >= 1 ==> WithinCapacity(t'))
  {
    var c := NewCommittee(t.nextId, title, description, monthlyAmount, totalMembers,
                          duration, committeeType, category, paymentFrequency, adminId, now);
    CreatedMembersFit(t, c, now);
    CreatedPositionsDense(t, c, now);
  }

  /** The tables after adding committee `c` under the next id, with its admin at position 1. */
  function WithCommittee(t: Tables, c: Committee, now: int): Tables {
    t.(committees := t.committees[t.nextId := c],
       members := t.members[t.nextId + 1 := CommitteeMember(t.nextId + 1, t.nextId, c.adminId, 1, now)],
       nextId := t.nextId + 2)
  }

  lemma CreatedMembersFit(t: Tables, c: Committee, now: int)
    requires TablesValid(t) && c.currentMembers == 1
    ensures var t' := WithCommittee(t, c, now);
      forall m :: m in t'.members ==> MemberFits(t', t'.members[m])
  {
    var t' := WithCommittee(t, c, now);
    forall m | m in t'.members ensures MemberFits(t', t'.members[m]) {
      if m != t.nextId + 1 {
        assert MemberFits(t, t.members[m]);
      }
    }
  }

  lemma CreatedPositionsDense(t: Tables, c: Committee, now: int)
    requires TablesValid(t) && c.currentMembers == 1
    ensures PositionsDense(WithCommittee(t, c, now))
  {
    var t' := WithCommittee(t, c, now);
    var cid, mid := t.nextId, t.nextId + 1;
    assert mid !in t.members;
    forall c', p | c' in t'.committees && 1 <= p <= t'.committees[c'].currentMembers
      ensures HasMemberAt(t'.members, c', p)
    {
      if c' == cid {
        assert t'.members[mid].committeeId == c' && t'.members[mid].position == p;
      } else {
        assert HasMemberAt(t.members, c', p);
        var m :| m in t.members && t.members[m].committeeId == c' && t.members[m].position == p;
        assert t'.members[m] == t.members[m];
      }
    }
  }

  ghost predicate CanJoin(t: Tables, cid: Id, uid: Id) {
    && cid in t.committees
    && t.committees[cid].currentMembers < t.committees[cid].totalMembers
    && !IsMemberIn(t.members, cid, uid)
  }

  /** `join_committee`: position current_members + 1, one more member; nothing changes when the
      committee is missing or full or the user already belongs to it. */
  ghost function Join(t: Tables, cid: Id, uid: Id, now: int): Outcome {
    if CanJoin(t, cid, uid) then
      var c := t.committees[cid];
      Outcome(t.(committees := t.committees[cid := c.(currentMembers := c.currentMembers + 1)],
                 members := t.members[t.nextId := CommitteeMember(t.nextId, cid, uid, c.currentMembers + 1, now)],
                 nextId := t.nextId + 1), true)
    else Outcome(t, false)
  }

  /** What a join does: it succeeds exactly when the committee exists, has a free slot and does
      not hold the user yet, and then appends the user at the next position. */
  lemma JoinSpec(t: Tables, cid: Id, uid: Id, now: int)
    ensures var r := Join(t, cid, uid, now);
      && (r.ok <==> CanJoin(t, cid, uid))
      && (!r.ok ==> r.tables == t)
      && (r.ok ==> && r.tables.committees[cid].currentMembers == t.committees[cid].currentMembers + 1
                   && t.nextId in r.tables.members
                   && r.tables.members[t.nextId].position == t.committees[cid].currentMembers + 1
                   && r.tables.members[t.nextId].userId == uid
                   && IsMemberIn(r.tables.members, cid, uid)
                   && r.tables.committees.Keys == t.committees.Keys
                   && (forall c :: c in t.committees && c != cid ==> r.tables.committees[c] == t.committees[c])
                   && (IdsBelow(t) ==> t.nextId !in t.members)
                   && r.tables.members.Keys == t.members.Keys + {t.nextId}
                   && (forall m :: m in t.members && m != t.nextId ==> r.tables.members[m] == t.members[m])
                   && r.tables.users == t.users && r.tables.invitations == t.invitations)
  {
    if CanJoin(t, cid, uid) {
      var t' := Join(t, cid, uid, now).tables;
      assert t'.members[t.nextId].committeeId == cid && t'.members[t.nextId].userId == uid;
    }
  }

  /** A join keeps the store valid and never overfills a committee. */
  lemma JoinKeepsValid(t: Tables, cid: Id, uid: Id, now: int)
    requires TablesValid(t)
    ensures TablesValid(Join(t, cid, uid, now).tables)
    ensures WithinCapacity(t) ==> WithinCapacity(Join(t, cid, uid, now).tables)
  {
    if CanJoin(t, cid, uid) {
      JoinMembersFit(t, cid, uid, now);
      JoinMembershipsUnique(t, cid, uid, now);
      JoinPositionsDense(t, cid, uid, now);
    }
  }

  lemma JoinMembersFit(t: Tables, cid: Id, uid: Id, now: int)
    requires TablesValid(t) && CanJoin(t, cid, uid)
    ensures var t' := Join(t, cid, uid, now).tables;
      forall m :: m in t'.members ==> MemberFits(t', t'.members[m])
  {
    var t' := Join(t, cid, uid, now).tables;
    forall m | m in t'.members ensures MemberFits(t', t'.members[m]) {
      if m != t.nextId {
        assert MemberFits(t, t.members[m]);
      }
    }
  }

  lemma JoinMembershipsUnique(t: Tables, cid: Id, uid: Id, now: int)
    requires TablesValid(t) && CanJoin(t, cid, uid)
    ensures MembershipsUnique(Join(t, cid, uid, now).tables.members)
  {
    var t' := Join(t, cid, uid, now).tables;
    var mid := t.nextId;
    assert mid !in t.members;
    forall a, b | a in t'.members && b in t'.members && a != b && t'.members[a].committeeId == t'.members[b].committeeId
      ensures t'.members[a].userId != t'.members[b].userId && t'.members[a].position != t'.members[b].position
    {
      if a == mid {
        assert MemberFits(t, t.members[b]);
        assert !(t.members[b].committeeId == cid && t.members[b].userId == uid);
      } else if b == mid {
        assert MemberFits(t, t.members[a]);
        assert !(t.members[a].committeeId == cid && t.members[a].userId == uid);
      }
    }
  }

  lemma JoinPositionsDense(t: Tables, cid: Id, uid: Id, now: int)
    requires TablesValid(t) && CanJoin(t, cid, uid)
    ensures PositionsDense(Join(t, cid, uid, now).tables)
  {
    var t' := Join(t, cid, uid, now).tables;
    var k := t.committees[cid].currentMembers;
    var mid := t.nextId;
    assert mid !in t.members;
    forall c, p | c in t'.committees && 1 <= p <= t'.committees[c].currentMembers
      ensures HasMemberAt(t'.members, c, p)
    {
      if c == cid && p == k + 1 {
        assert t'.members[mid].committeeId == c && t'.members[mid].position == p;
      } else {
        assert HasMemberAt(t.members, c, p);
        var m :| m in t.members && t.members[m].committeeId == c && t.members[m].position == p;
        assert t'.members[m] == t.members[m];
      }
    }
  }

  /** Two different users asking for the last open slot: the first join succeeds, the second
      fails, and the committee gains exactly one member. */
  lemma LastSlotGoesToOneUser(t: Tables, cid: Id, u1: Id, u2: Id, now: int)
    requires TablesValid(t) && cid in t.committees
    requires t.committees[cid].currentMembers + 1 == t.committees[cid].totalMembers
    requires !IsMemberIn(t.members, cid, u1) && !IsMemberIn(t.members, cid, u2) && u1 != u2
    ensures var r1 := Join(t, cid, u1, now);
      var r2 := Join(r1.tables, cid, u2, now);
      && r1.ok && !r2.ok
      && r2.tables.committees[cid].currentMembers == t.committees[cid].currentMembers + 1
  {
    JoinSpec(t, cid, u1, now);
    JoinKeepsValid(t, cid, u1, now);
  }

  /** `update_committee_settings`: rewrites six descriptive fields of a stored committee. */
  ghost function UpdateSettings(t: Tables, cid: Id, title: string, description: Option<string>, status: string,
                                paymentFrequency: string, category: string, committeeType: string): Outcome
  {
    if cid in t.committees then
      var c := t.committees[cid];
      Outcome(t.(committees := t.committees[cid := c.(title := title, description := description, status := status,
                                                        paymentFrequency := paymentFrequency, category := category,
                                                        committeeType := committeeType)]), true)
    else Outcome(t, false)
  }

  lemma UpdateSettingsSpec(t: Tables, cid: Id, title: string, description: Option<string>, status: string,
                           paymentFrequency: string, category: string, committeeType: string)
    requires TablesValid(t)
    ensures var r := UpdateSettings(t, cid, title, description, status, paymentFrequency, category, committeeType);
      && TablesValid(r.tables)
      && (r.ok <==> cid in t.committees)
      && (WithinCapacity(t) ==> WithinCapacity(r.tables))
      && r.tables.members == t.members
      && r.tables.committees.Keys == t.committees.Keys
      && (forall c :: c in t.committees ==>
            && r.tables.committees[c].currentMembers == t.committees[c].currentMembers
            && r.tables.committees[c].totalMembers == t.committees[c].totalMembers
            && r.tables.committees[c].adminId == t.committees[c].adminId)
  {
    var r := UpdateSettings(t, cid, title, description, status, paymentFrequency, category, committeeType);
    forall m | m in r.tables.members ensures MemberFits(r.tables, r.tables.members[m]) {
      assert MemberFits(t, t.members[m]);
    }
    forall c, p | c in r.tables.committees && 1 <= p <= r.tables.committees[c].currentMembers
      ensures HasMemberAt(r.tables.members, c, p)
    {
      assert HasMemberAt(t.members, c, p);
    }
  }

  function MembersWithout(ms: map<Id, CommitteeMember>, cid: Id): map<Id, CommitteeMember> {
    map m | m in ms && ms[m].committeeId != cid :: ms[m]
  }

  /** `delete_committee`: the committee and all of its memberships. Invitations stay. */
  ghost function Delete(t: Tables, cid: Id): Outcome {
    if cid in t.committees then
      Outcome(t.(committees := t.committees - {cid}, members := MembersWithout(t.members, cid)), true)
    else Outcome(t, false)
  }

  lemma DeleteSpec(t: Tables, cid: Id)
    requires TablesValid(t)
    ensures var r := Delete(t, cid);
      && TablesValid(r.tables)
      && (r.ok <==> cid in t.committees)
      && (!r.ok ==> r.tables == t)
      && cid !in r.tables.committees
      && MembershipsOf(r.tables.members, cid) == {}
      && (forall c :: c in t.committees && c != cid ==>
            c in r.tables.committees && r.tables.committees[c] == t.committees[c]
            && MembershipsOf(r.tables.members, c) == MembershipsOf(t.members, c))
      && (WithinCapacity(t) ==> WithinCapacity(r.tables))
  {
    var r := Delete(t, cid);
    if r.ok {
      var t' := r.tables;
      forall m | m in t'.members ensures MemberFits(t', t'.members[m]) {
        assert MemberFits(t, t.members[m]);
      }
      forall c, p | c in t'.committees && 1 <= p <= t'.committees[c].currentMembers
        ensures HasMemberAt(t'.members, c, p)
      {
        assert HasMemberAt(t.members, c, p);
        var m :| m in t.members && t.members[m].committeeId == c && t.members[m].position == p;
        assert m in t'.members;
      }
    }
  }

  // ---------------------------------------------------------------- invitations

  ghost predicate HasPendingInvitation(invs: map<Id, Invitation>, cid: Id, uid: Id) {
    exists k :: k in invs && invs[k].committeeId == cid && invs[k].invitedUserId == uid && invs[k].status == "pending"
  }

  /** At most one pending invitation per (committee, invited user). Neither the in-memory send
      (db_manager.py:767-781) nor the invitations table enforces it. */
  ghost predicate AtMostOnePending(invs: map<Id, Invitation>) {
    forall a, b :: (&& a in invs && b in invs && invs[a].status == "pending" && invs[b].status == "pending"
                   && invs[a].committeeId == invs[b].committeeId && invs[a].invitedUserId == invs[b].invitedUserId) ==> a == b
  }

  function PendingInvitation(id: Id, cid: Id, uid: Id, inviter: Id, message: Option<string>, now: int): Invitation {
    Invitation(id, cid, uid, inviter, now, "pending", message, None)
  }

  /** `send_committee_invitation` as written: always records a new pending invitation. Neither
      the inviter, the committee's type nor an earlier pending invitation is checked. */
  ghost function SendInvitation(t: Tables, cid: Id, uid: Id, inviter: Id, message: Option<string>, now: int): Outcome {
    Outcome(t.(invitations := t.invitations[t.nextId := PendingInvitation(t.nextId, cid, uid, inviter, message, now)],
               nextId := t.nextId + 1), true)
  }

  lemma SendInvitationKeepsValid(t: Tables, cid: Id, uid: Id, inviter: Id, message: Option<string>, now: int)
    requires TablesValid(t)
    ensures TablesValid(SendInvitation(t, cid, uid, inviter, message, now).tables)
    ensures HasPendingInvitation(SendInvitation(t, cid, uid, inviter, message, now).tables.invitations, cid, uid)
  {
    var t' := SendInvitation(t, cid, uid, inviter, message, now).tables;
    assert t'.invitations[t.nextId].status == "pending";
    forall m | m in t'.members ensures MemberFits(t', t'.members[m]) {
      assert MemberFits(t, t.members[m]);
    }
    forall c, p | c in t'.committees && 1 <= p <= t'.committees[c].currentMembers
      ensures HasMemberAt(t'.members, c, p)
    {
      assert HasMemberAt(t.members, c, p);
    }
  }

  /** Sending the same invitation twice leaves two pending invitations for one pair. */
  lemma SendTwiceDuplicatesPending(t: Tables, cid: Id, uid: Id, inviter: Id, message: Option<string>, now: int)
    requires TablesValid(t)
    ensures var t2 := SendInvitation(SendInvitation(t, cid, uid, inviter, message, now).tables, cid, uid, inviter, message, now).tables;
      !AtMostOnePending(t2.invitations)
  {
    var t1 := SendInvitation(t, cid, uid, inviter, message, now).tables;
    var t2 := SendInvitation(t1, cid, uid, inviter, message, now).tables;
    assert t.nextId in t2.invitations && t.nextId + 1 in t2.invitations;
    assert t2.invitations[t.nextId].status == "pending" && t2.invitations[t.nextId + 1].status == "pending";
  }

  /** Sending that refuses a second pending invitation for the same (committee, invited user). */
  ghost function SendInvitationOnce(t: Tables, cid: Id, uid: Id, inviter: Id, message: Option<string>, now: int): Outcome {
    if HasPendingInvitation(t.invitations, cid, uid) then Outcome(t, false)
    else SendInvitation(t, cid, uid, inviter, message, now)
  }

  lemma SendInvitationOnceSpec(t: Tables, cid: Id, uid: Id, inviter: Id, message: Option<string>, now: int)
    requires TablesValid(t) && AtMostOnePending(t.invitations)
    ensures var r := SendInvitationOnce(t, cid, uid, inviter, message, now);
      && TablesValid(r.tables)
      && AtMostOnePending(r.tables.invitations)
      && (r.ok <==> !HasPendingInvitation(t.invitations, cid, uid))
      && HasPendingInvitation(r.tables.invitations, cid, uid)
  {
    SendInvitationKeepsValid(t, cid, uid, inviter, message, now);
    var r := SendInvitationOnce(t, cid, uid, inviter, message, now);
    if r.ok {
      var invs := r.tables.invitations;
      var n := t.nextId;
      assert n !in t.invitations;
    }
  }

  function Answered(inv: Invitation, response: string, now: int): Invitation {
    inv.(status := response, responseDate := Some(now))
  }

  /** `respond_to_invitation`, in-memory path as written: the status is overwritten first, pending
      or not, and an acceptance then tries to join; the join's result is returned. */
  ghost function RespondFallback(t: Tables, invId: Id, response: string, now: int): Outcome {
    if invId !in t.invitations then Outcome(t, false)
    else
      var inv := t.invitations[invId];
      var t1 := t.(invitations := t.invitations[invId := Answered(inv, response, now)]);
      if response == "accepted" then Join(t1, inv.committeeId, inv.invitedUserId, now)
      else Outcome(t1, true)
  }

  /** `respond_to_invitation`, transactional path: only a pending invitation is answered, and an
      acceptance whose join fails is rolled back. */
  ghost function RespondAtomic(t: Tables, invId: Id, response: string, now: int): Outcome {
    if invId !in t.invitations || t.invitations[invId].status != "pending" then Outcome(t, false)
    else
      var inv := t.invitations[invId];
      if response == "accepted" then
        var j := Join(t, inv.committeeId, inv.invitedUserId, now);
        if j.ok then Outcome(j.tables.(invitations := j.tables.invitations[invId := Answered(inv, response, now)]), true)
        else Outcome(t, false)
      else Outcome(t.(invitations := t.invitations[invId := Answered(inv, response, now)]), true)
  }

  lemma InvitationUpdateKeepsValid(t: Tables, invId: Id, inv: Invitation)
    requires TablesValid(t) && invId in t.invitations && inv.id == invId
    ensures TablesValid(t.(invitations := t.invitations[invId := inv]))
  {
    var t' := t.(invitations := t.invitations[invId := inv]);
    forall m | m in t'.members ensures MemberFits(t', t'.members[m]) {
      assert MemberFits(t, t.members[m]);
    }
    forall c, p | c in t'.committees && 1 <= p <= t'.committees[c].currentMembers
      ensures HasMemberAt(t'.members, c, p)
    {
      assert HasMemberAt(t.members, c, p);
    }
  }

  /** The transactional response: it answers only pending invitations; a failure changes nothing;
      a successful acceptance leaves the invitation accepted and the user a member. */
  lemma RespondAtomicSpec(t: Tables, invId: Id, response: string, now: int)
    requires TablesValid(t)
    ensures var r := RespondAtomic(t, invId, response, now);
      && TablesValid(r.tables)
      && (!r.ok ==> r.tables == t)
      && (r.ok <==> invId in t.invitations && t.invitations[invId].status == "pending"
                    && (response == "accepted" ==> CanJoin(t, t.invitations[invId].committeeId, t.invitations[invId].invitedUserId)))
      && (r.ok ==> r.tables.invitations[invId].status == response)
      && (r.ok && response == "accepted" ==>
            IsMemberIn(r.tables.members, t.invitations[invId].committeeId, t.invitations[invId].invitedUserId))
      && (r.ok && response != "accepted" ==> r.tables.members == t.members && r.tables.committees == t.committees)
      && (WithinCapacity(t) ==> WithinCapacity(r.tables))
  {
    if invId in t.invitations && t.invitations[invId].status == "pending" {
      var inv := t.invitations[invId];
      if response == "accepted" {
        JoinSpec(t, inv.committeeId, inv.invitedUserId, now);
        JoinKeepsValid(t, inv.committeeId, inv.invitedUserId, now);
        var j := Join(t, inv.committeeId, inv.invitedUserId, now);
        if j.ok {
          assert j.tables.invitations == t.invitations;
          InvitationUpdateKeepsValid(j.tables, invId, Answered(inv, response, now));
        }
      } else {
        InvitationUpdateKeepsValid(t, invId, Answered(inv, response, now));
      }
    }
  }

  /** As written, accepting an invitation to a committee that filled up meanwhile fails, yet the
      invitation is left "accepted" and the user is not a member. */
  lemma FallbackAcceptIntoFullCommittee(t: Tables, invId: Id, now: int)
    requires TablesValid(t) && invId in t.invitations
    requires var inv := t.invitations[invId];
      inv.committeeId in t.committees
      && t.committees[inv.committeeId].currentMembers == t.committees[inv.committeeId].totalMembers
      && !IsMemberIn(t.members, inv.committeeId, inv.invitedUserId)
    ensures var r := RespondFallback(t, invId, "accepted", now);
      var inv := t.invitations[invId];
      && !r.ok
      && r.tables.invitations[invId].status == "accepted"
      && !IsMemberIn(r.tables.members, inv.committeeId, inv.invitedUserId)
    ensures !RespondAtomic(t, invId, "accepted", now).ok && RespondAtomic(t, invId, "accepted", now).tables == t
  {
  }

  /** As written, an invitation already accepted can be answered again with "rejected": the
      call succeeds and the invitation reads "rejected" while the membership it created stays. */
  lemma FallbackRejectAfterAccept(t: Tables, invId: Id, now: int)
    requires TablesValid(t) && invId in t.invitations
    requires t.invitations[invId].status == "accepted"
    requires IsMemberIn(t.members, t.invitations[invId].committeeId, t.invitations[invId].invitedUserId)
    ensures var r := RespondFallback(t, invId, "rejected", now);
      var inv := t.invitations[invId];
      && r.ok
      && r.tables.invitations[invId].status == "rejected"
      && IsMemberIn(r.tables.members, inv.committeeId, inv.invitedUserId)
    ensures !RespondAtomic(t, invId, "rejected", now).ok
  {
  }

  // ---------------------------------------------------------------- queries in insertion order

  /* The in-memory tables are Python dictionaries, which are walked in insertion order. Ids come
     from the counter and a key is never re-inserted, so insertion order is ascending id order:
     the queries walk the ids 0..nextId. */

  /** Membership `m` of `uid` refers to the stored committee `c`. */
  ghost predicate MembershipTo(ms: map<Id, CommitteeMember>, cs: map<Id, Committee>, uid: Id, m: Id, c: Committee) {
    m in ms && ms[m].userId == uid && ms[m].committeeId in cs && cs[ms[m].committeeId] == c
  }

  /** The committees of `uid`'s memberships among the membership ids below `n`, in membership order. */
  function UserCommitteesBelow(ms: map<Id, CommitteeMember>, cs: map<Id, Committee>, uid: Id, n: nat): seq<Committee>
    decreases n
  {
    if n == 0 then []
    else
      var m := n - 1;
      UserCommitteesBelow(ms, cs, uid, m)
        + (if m in ms && ms[m].userId == uid && ms[m].committeeId in cs then [cs[ms[m].committeeId]] else [])
  }

  /** No committee is listed twice. */
  ghost predicate CommitteeIdsDistinct(r: seq<Committee>) {
    forall i, j :: 0 <= i < j < |r| ==> r[i].id != r[j].id
  }

  /** The user's committees are exactly those of the user's memberships, each once. */
  lemma {:induction false} UserCommitteesBelowSpec(ms: map<Id, CommitteeMember>, cs: map<Id, Committee>, uid: Id, n: nat)
    requires MembershipsUnique(ms) && forall k :: k in cs ==> cs[k].id == k
    ensures forall c :: c in UserCommitteesBelow(ms, cs, uid, n) <==> exists k: Id :: k < n && MembershipTo(ms, cs, uid, k, c)
    ensures CommitteeIdsDistinct(UserCommitteesBelow(ms, cs, uid, n))
    decreases n
  {
    if n > 0 {
      var m: Id := n - 1;
      UserCommitteesBelowSpec(ms, cs, uid, m);
      var r0 := UserCommitteesBelow(ms, cs, uid, m);
      var r := UserCommitteesBelow(ms, cs, uid, n);
      var hit := m in ms && ms[m].userId == uid && ms[m].committeeId in cs;
      if hit {
        var c := cs[ms[m].committeeId];
        assert r == r0 + [c];
        assert MembershipTo(ms, cs, uid, m, c);
        forall i | 0 <= i < |r0| ensures r0[i].id != c.id {
          assert r0[i] in r0;
          var m': Id :| m' < m && MembershipTo(ms, cs, uid, m', r0[i]);
          assert ms[m'].committeeId == r0[i].id;
        }
        forall i, j | 0 <= i < j < |r| ensures r[i].id != r[j].id {
          assert CommitteeIdsDistinct(r0);
          if j < |r0| {
            assert r[i] == r0[i] && r[j] == r0[j];
          }
        }
      } else {
        assert r == r0;
      }
      forall c, m': Id | m' < n && MembershipTo(ms, cs, uid, m', c) ensures c in r {
        if m' < m {
          assert c in r0;
        }
      }
    }
  }

  /** The committees with ids below `n` that are open to `uid`, in id order. */
  ghost function OpenCommitteesBelow(cs: map<Id, Committee>, ms: map<Id, CommitteeMember>, uid: Id, n: nat): seq<Committee>
    decreases n
  {
    if n == 0 then []
    else
      var k := n - 1;
      OpenCommitteesBelow(cs, ms, uid, k) + (if k in cs && OpenTo(ms, cs[k], uid) then [cs[k]] else [])
  }

  /** The offered committees are exactly the open ones, in strictly ascending id order. */
  lemma {:induction false} OpenCommitteesBelowSpec(cs: map<Id, Committee>, ms: map<Id, CommitteeMember>, uid: Id, n: nat)
    requires forall k :: k in cs ==> cs[k].id == k
    ensures var r := OpenCommitteesBelow(cs, ms, uid, n);
      && (forall c :: c in r <==> c in cs.Values && c.id < n && OpenTo(ms, c, uid))
      && (forall i :: 0 <= i < |r| ==> r[i].id < n)
      && (forall i, j :: 0 <= i < j < |r| ==> r[i].id < r[j].id)
    decreases n
  {
    if n > 0 {
      var k := n - 1;
      OpenCommitteesBelowSpec(cs, ms, uid, k);
      var r0 := OpenCommitteesBelow(cs, ms, uid, k);
      var r := OpenCommitteesBelow(cs, ms, uid, n);
      if k in cs && OpenTo(ms, cs[k], uid) {
        assert r == r0 + [cs[k]];
      } else {
        assert r == r0;
      }
      forall c | c in cs.Values && c.id < n && OpenTo(ms, c, uid) ensures c in r {
        if c.id < k {
          assert c in r0;
        } else {
          assert cs[k] == c;
        }
      }
    }
  }

  /** Invitation `k` is one of `uid`'s pending invitations to a stored committee, listed as `v`. */
  ghost predicate ListedInvitation(invs: map<Id, Invitation>, cs: map<Id, Committee>, uid: Id, k: Id, v: InvitationInfo) {
    && k in invs && invs[k].invitedUserId == uid && invs[k].status == "pending" && invs[k].committeeId in cs
    && v == InvitationInfoOf(invs[k], cs[invs[k].committeeId].title)
  }

  /** The entries for `uid`'s pending invitations with ids below `n` to committees that still
      exist, in invitation order. */
  function PendingInvitationsBelow(invs: map<Id, Invitation>, cs: map<Id, Committee>, uid: Id, n: nat): seq<InvitationInfo>
    decreases n
  {
    if n == 0 then []
    else
      var k := n - 1;
      PendingInvitationsBelow(invs, cs, uid, k)
        + (if k in invs && invs[k].invitedUserId == uid && invs[k].status == "pending" && invs[k].committeeId in cs
           then [InvitationInfoOf(invs[k], cs[invs[k].committeeId].title)] else [])
  }

  /** The listed entries are exactly the user's pending invitations to existing committees, one
      per invitation, in strictly ascending invitation id order. */
  lemma {:induction false} PendingInvitationsBelowSpec(invs: map<Id, Invitation>, cs: map<Id, Committee>, uid: Id, n: nat)
    requires forall k :: k in invs ==> invs[k].id == k
    ensures var r := PendingInvitationsBelow(invs, cs, uid, n);
      && (forall v: InvitationInfo :: v in r <==> v.id < n && ListedInvitation(invs, cs, uid, v.id, v))
      && (forall i :: 0 <= i < |r| ==> r[i].id < n)
      && (forall i, j :: 0 <= i < j < |r| ==> r[i].id < r[j].id)
    decreases n
  {
    if n > 0 {
      var k := n - 1;
      PendingInvitationsBelowSpec(invs, cs, uid, k);
      var r0 := PendingInvitationsBelow(invs, cs, uid, k);
      var r := PendingInvitationsBelow(invs, cs, uid, n);
      if k in invs && invs[k].invitedUserId == uid && invs[k].status == "pending" && invs[k].committeeId in cs {
        var v := InvitationInfoOf(invs[k], cs[invs[k].committeeId].title);
        assert r == r0 + [v];
      } else {
        assert r == r0;
      }
      forall v: InvitationInfo | v.id < n && ListedInvitation(invs, cs, uid, v.id, v) ensures v in r {
        if v.id < k {
          assert v in r0;
        }
      }
    }
  }

  // ---------------------------------------------------------------- the store object

  class DatabaseManager {
    var users: map<Id, User>
    var committees: map<Id, Committee>
    var members: map<Id, CommitteeMember>
    var invitations: map<Id, Invitation>
    var nextId: nat

    ghost function Snapshot(): Tables
      reads this
    {
      Tables(users, committees, members, invitations, nextId)
    }

    ghost predicate Valid()
      reads this
    {
      TablesValid(Snapshot())
    }

    /** The in-memory store as it starts: the two demo accounts, nothing else. */
    constructor (now: int)
      ensures Valid() && WithinCapacity(Snapshot())
      ensures committees == map[] && members == map[] && invitations == map[]
      ensures users.Keys == {0, 1} && users[0].username == "demo_admin" && users[1].username == "demo_member"
      ensures nextId == 2
    {
      users := map[
        0 := User(0, "demo_admin", Hashing.Sha256Hex("password"), "Demo Admin", "admin@civitas.pk",
                  "+92-300-1234567", UserRoleValue(Admin), Some("12345-1234567-1"), 95, now),
        1 := User(1, "demo_member", Hashing.Sha256Hex("password"), "Demo Member", "member@civitas.pk",
                  "+92-300-7654321", UserRoleValue(Member), Some("54321-7654321-5"), 88, now)];
      committees := map[];
      members := map[];
      invitations := map[];
      nextId := 2;
    }

    /** The scan `create_user` makes over the accounts for the username. */
    method UsernameExists(username: string) returns (taken: bool)
      ensures taken <==> UsernameTaken(users, username)
    {
      var keys := users.Keys;
      while keys != {}
        invariant keys <= users.Keys
        invariant forall k :: k in users && k !in keys ==> users[k].username != username
        decreases keys
      {
        var k :| k in keys;
        if users[k].username == username {
          return true;
        }
        keys := keys - {k};
      }
      return false;
    }

    method CreateUser(username: string, password: string, fullName: string, email: string,
                      phone: string, role: string, cnic: Option<string>, now: int) returns (ok: bool)
      requires Valid()
      modifies this
      ensures Valid()
      ensures var r := CreateUserOutcome(old(Snapshot()), username, password, fullName, email, phone, role, cnic, now);
        Snapshot() == r.tables && ok == r.ok
    {
      ghost var t0 := Snapshot();
      CreateUserSpec(t0, username, password, fullName, email, phone, role, cnic, now);
      CreateUserKeepsValid(t0, username, password, fullName, email, phone, role, cnic, now);
      var taken := UsernameExists(username);
      if taken {
        return false;
      }
      users := users[nextId := NewUser(nextId, username, password, fullName, email, phone, role, cnic, now)];
      nextId := nextId + 1;
      assert Snapshot() == CreateUserOutcome(t0, username, password, fullName, email, phone, role, cnic, now).tables;
      ok := true;
    }

    /** `authenticate_user`: the account with this username whose digest matches the password. */
    method AuthenticateUser(username: string, password: string) returns (r: Option<UserInfo>)
      requires Valid()
      ensures r.Some? <==> exists k :: k in users && users[k].username == username
                                    && users[k].passwordHash == Hashing.Sha256Hex(password)
      ensures r.Some? ==> forall k :: k in users && users[k].username == username ==> r.value == InfoOf(users[k])
    {
      var digest := Hashing.Sha256Hex(password);
      var keys := users.Keys;
      while keys != {}
        invariant keys <= users.Keys
        invariant forall k :: k in users && k !in keys ==>
                    !(users[k].username == username && users[k].passwordHash == digest)
        decreases keys
      {
        var k :| k in keys;
        if users[k].username == username && users[k].passwordHash == digest {
          return Some(InfoOf(users[k]));
        }
        keys := keys - {k};
      }
      return None;
    }

    method CreateCommittee(title: string, description: Option<string>, monthlyAmount: int,
                           totalMembers: int, duration: int, committeeType: string, category: string,
                           paymentFrequency: string, adminId: Id, now: int) returns (ok: bool)
      requires Valid()
      modifies this
      ensures Valid()
      ensures var r := CreateCommitteeOutcome(old(Snapshot()), title, description, monthlyAmount, totalMembers,
                                             duration, committeeType, category, paymentFrequency, adminId, now);
        Snapshot() == r.tables && ok == r.ok
    {
      ghost var t0 := Snapshot();
      CreateCommitteeKeepsValid(t0, title, description, monthlyAmount, totalMembers, duration,
                          committeeType, category, paymentFrequency, adminId, now);
      var cid := nextId;
      committees := committees[cid := NewCommittee(cid, title, description, monthlyAmount, totalMembers,
                                                   duration, committeeType, category, paymentFrequency, adminId, now)];
      members := members[cid + 1 := CommitteeMember(cid + 1, cid, adminId, 1, now)];
      nextId := nextId + 2;
      assert Snapshot() == CreateCommitteeOutcome(t0, title, description, monthlyAmount, totalMembers, duration,
                                                  committeeType, category, paymentFrequency, adminId, now).tables;
      ok := true;
    }

    /** `get_user_committees`: the committees of the user's memberships, in membership order. */
    method GetUserCommittees(uid: Id) returns (r: seq<Committee>)
      requires Valid()
      ensures r == UserCommitteesBelow(members, committees, uid, nextId)
      ensures forall c :: c in r <==> exists m: Id :: MembershipTo(members, committees, uid, m, c)
      ensures forall i, j :: 0 <= i < j < |r| ==> r[i].id != r[j].id
    {
      r := [];
      for i := 0 to nextId
        invariant r == UserCommitteesBelow(members, committees, uid, i)
      {
        if i in members && members[i].userId == uid && members[i].committeeId in committees {
          r := r + [committees[members[i].committeeId]];
        }
      }
      UserCommitteesBelowSpec(members, committees, uid, nextId);
      forall c, m: Id | MembershipTo(members, committees, uid, m, c) ensures c in r {
        assert m < nextId;
      }
    }

    /** `get_public_committees_for_user`: public committees with a free slot that the user has not
        joined, in creation order. */
    method GetPublicCommitteesForUser(uid: Id) returns (r: seq<Committee>)
      requires Valid()
      ensures r == OpenCommitteesBelow(committees, members, uid, nextId)
      ensures forall c :: c in r <==> c in committees.Values && OpenTo(members, c, uid)
      ensures forall i, j :: 0 <= i < j < |r| ==> r[i].id < r[j].id
    {
      var joined := JoinedCommitteeIds(uid);
      r := [];
      for i := 0 to nextId
        invariant r == OpenCommitteesBelow(committees, members, uid, i)
      {
        if i in committees {
          var c := committees[i];
          if c.committeeType == "public" && c.id !in joined && c.currentMembers < c.totalMembers {
            r := r + [c];
          }
        }
      }
      OpenCommitteesBelowSpec(committees, members, uid, nextId);
      forall c | c in committees.Values && OpenTo(members, c, uid) ensures c in r {
        var k :| k in committees && committees[k] == c;
        assert c.id < nextId;
      }
    }

    /** The set of committee ids the user holds a membership in. */
    method JoinedCommitteeIds(uid: Id) returns (ids: set<Id>)
      ensures forall cid :: cid in ids <==> IsMemberIn(members, cid, uid)
    {
      ids := set m | m in members && members[m].userId == uid :: members[m].committeeId;
    }

    /** The scan `join_committee` makes for an existing membership of the user. */
    method HasMembership(cid: Id, uid: Id) returns (found: bool)
      ensures found <==> IsMemberIn(members, cid, uid)
    {
      var keys := members.Keys;
      while keys != {}
        invariant keys <= members.Keys
        invariant forall m :: m in members && m !in keys ==> !(members[m].committeeId == cid && members[m].userId == uid)
        decreases keys
      {
        var m :| m in keys;
        if members[m].committeeId == cid && members[m].userId == uid {
          return true;
        }
        keys := keys - {m};
      }
      return false;
    }

    method JoinCommittee(cid: Id, uid: Id, now: int) returns (ok: bool)
      requires Valid()
      modifies this
      ensures Valid()
      ensures var r := Join(old(Snapshot()), cid, uid, now); Snapshot() == r.tables && ok == r.ok
    {
      ghost var t0 := Snapshot();
      JoinKeepsValid(t0, cid, uid, now);
      if cid !in committees || committees[cid].currentMembers >= committees[cid].totalMembers {
        assert !CanJoin(t0, cid, uid);
        return false;
      }
      var already := HasMembership(cid, uid);
      if already {
        assert !CanJoin(t0, cid, uid);
        return false;
      }
      assert CanJoin(t0, cid, uid);
      var position := committees[cid].currentMembers + 1;
      members := members[nextId := CommitteeMember(nextId, cid, uid, position, now)];
      nextId := nextId + 1;
      committees := committees[cid := committees[cid].(currentMembers := position)];
      assert Snapshot() == Join(t0, cid, uid, now).tables;
      ok := true;
    }

    /** `get_member_position_in_committee`: the user's payout position, or 0 for a non-member. */
    method GetMemberPosition(cid: Id, uid: Id) returns (p: int)
      requires Valid()
      ensures p == 0 <==> !IsMemberIn(members, cid, uid)
      ensures p != 0 ==> exists m :: m in members && members[m].committeeId == cid && members[m].userId == uid && members[m].position == p
      ensures p != 0 ==> cid in committees && 1 <= p <= committees[cid].currentMembers
      ensures p == 1 <==> cid in committees && uid == committees[cid].adminId
    {
      var keys := members.Keys;
      while keys != {}
        invariant keys <= members.Keys
        invariant forall m :: m in members && m !in keys ==> !(members[m].committeeId == cid && members[m].userId == uid)
        decreases keys
      {
        var m :| m in keys;
        if members[m].committeeId == cid && members[m].userId == uid {
          assert MemberFits(Snapshot(), members[m]);
          AdminAtPositionOne(Snapshot(), m);
          return members[m].position;
        }
        keys := keys - {m};
      }
      if cid in committees {
        AdminIsMember(Snapshot(), cid);
      }
      p := 0;
    }

    method UpdateCommitteeSettings(cid: Id, title: string, description: Option<string>, status: string,
                                   paymentFrequency: string, category: string, committeeType: string) returns (ok: bool)
      requires Valid()
      modifies this
      ensures Valid()
      ensures var r := UpdateSettings(old(Snapshot()), cid, title, description, status, paymentFrequency, category, committeeType);
        Snapshot() == r.tables && ok == r.ok
    {
      UpdateSettingsSpec(Snapshot(), cid, title, description, status, paymentFrequency, category, committeeType);
      if cid !in committees {
        return false;
      }
      var c := committees[cid];
      committees := committees[cid := c.(title := title, description := description, status := status,
                                         paymentFrequency := paymentFrequency, category := category,
                                         committeeType := committeeType)];
      ok := true;
    }

    /** The cascade of `delete_committee`: collect the committee's memberships, then delete each. */
    method RemoveMemberships(cid: Id)
      modifies this
      ensures members == MembersWithout(old(members), cid)
      ensures users == old(users) && committees == old(committees)
      ensures invitations == old(invitations) && nextId == old(nextId)
    {
      var toRemove := set m | m in members && members[m].committeeId == cid;
      ghost var before := members;
      while toRemove != {}
        invariant toRemove <= members.Keys
        invariant forall m :: m in members <==> m in before && (m in toRemove || before[m].committeeId != cid)
        invariant forall m :: m in members ==> members[m] == before[m]
        invariant users == old(users) && committees == old(committees)
        invariant invitations == old(invitations) && nextId == old(nextId)
        decreases toRemove
      {
        var m :| m in toRemove;
        members := members - {m};
        toRemove := toRemove - {m};
      }
      assert members.Keys == MembersWithout(before, cid).Keys;
    }

    method DeleteCommittee(cid: Id) returns (ok: bool)
      requires Valid()
      modifies this
      ensures Valid()
      ensures var r := Delete(old(Snapshot()), cid); Snapshot() == r.tables && ok == r.ok
    {
      DeleteSpec(Snapshot(), cid);
      if cid !in committees {
        return false;
      }
      committees := committees - {cid};
      RemoveMemberships(cid);
      ok := true;
    }

    /** `send_committee_invitation`, as written. */
    method SendCommitteeInvitation(cid: Id, uid: Id, inviter: Id, message: Option<string>, now: int) returns (ok: bool)
      requires Valid()
      modifies this
      ensures Valid()
      ensures var r := SendInvitation(old(Snapshot()), cid, uid, inviter, message, now); Snapshot() == r.tables && ok == r.ok
    {
      SendInvitationKeepsValid(Snapshot(), cid, uid, inviter, message, now);
      invitations := invitations[nextId := PendingInvitation(nextId, cid, uid, inviter, message, now)];
      nextId := nextId + 1;
      ok := true;
    }

    /** A scan for a pending invitation of the user to the committee. */
    method HasPending(cid: Id, uid: Id) returns (found: bool)
      ensures found <==> HasPendingInvitation(invitations, cid, uid)
    {
      var keys := invitations.Keys;
      while keys != {}
        invariant keys <= invitations.Keys
        invariant forall k :: k in invitations && k !in keys ==>
                    !(invitations[k].committeeId == cid && invitations[k].invitedUserId == uid && invitations[k].status == "pending")
        decreases keys
      {
        var k :| k in keys;
        var inv := invitations[k];
        if inv.committeeId == cid && inv.invitedUserId == uid && inv.status == "pending" {
          return true;
        }
        keys := keys - {k};
      }
      return false;
    }

    /** Sending that refuses a second pending invitation for the same pair; `send_committee_invitation`
        itself has no such check. */
    method SendCommitteeInvitationOnce(cid: Id, uid: Id, inviter: Id, message: Option<string>, now: int) returns (ok: bool)
      requires Valid() && AtMostOnePending(invitations)
      modifies this
      ensures Valid() && AtMostOnePending(invitations)
      ensures var r := SendInvitationOnce(old(Snapshot()), cid, uid, inviter, message, now); Snapshot() == r.tables && ok == r.ok
    {
      ghost var t0 := Snapshot();
      SendInvitationOnceSpec(t0, cid, uid, inviter, message, now);
      var pending := HasPending(cid, uid);
      if pending {
        return false;
      }
      invitations := invitations[nextId := PendingInvitation(nextId, cid, uid, inviter, message, now)];
      nextId := nextId + 1;
      assert Snapshot() == SendInvitationOnce(t0, cid, uid, inviter, message, now).tables;
      ok := true;
    }

    /** `get_user_invitations`: the user's pending invitations to committees that still exist, in
        the order they were sent. */
    method GetUserInvitations(uid: Id) returns (r: seq<InvitationInfo>)
      requires Valid()
      ensures r == PendingInvitationsBelow(invitations, committees, uid, nextId)
      ensures forall v: InvitationInfo :: v in r <==> ListedInvitation(invitations, committees, uid, v.id, v)
      ensures forall i, j :: 0 <= i < j < |r| ==> r[i].id < r[j].id
    {
      r := [];
      for i := 0 to nextId
        invariant r == PendingInvitationsBelow(invitations, committees, uid, i)
      {
        if i in invitations {
          var inv := invitations[i];
          if inv.invitedUserId == uid && inv.status == "pending" && inv.committeeId in committees {
            r := r + [InvitationInfoOf(inv, committees[inv.committeeId].title)];
          }
        }
      }
      PendingInvitationsBelowSpec(invitations, committees, uid, nextId);
      forall v: InvitationInfo | ListedInvitation(invitations, committees, uid, v.id, v) ensures v in r {
        assert v.id < nextId;
      }
    }

    /** `respond_to_invitation`, in-memory path as written. */
    method RespondToInvitation(invId: Id, response: string, now: int) returns (ok: bool)
      requires Valid()
      modifies this
      ensures Valid()
      ensures var r := RespondFallback(old(Snapshot()), invId, response, now); Snapshot() == r.tables && ok == r.ok
    {
      if invId !in invitations {
        return false;
      }
      var inv := invitations[invId];
      InvitationUpdateKeepsValid(Snapshot(), invId, Answered(inv, response, now));
      invitations := invitations[invId := Answered(inv, response, now)];
      if response == "accepted" {
        ok := JoinCommittee(inv.committeeId, inv.invitedUserId, now);
        return;
      }
      ok := true;
    }

    /** `respond_to_invitation`, transactional path: one atomic step. */
    method RespondToInvitationAtomic(invId: Id, response: string, now: int) returns (ok: bool)
      requires Valid()
      modifies this
      ensures Valid()
      ensures var r := RespondAtomic(old(Snapshot()), invId, response, now); Snapshot() == r.tables && ok == r.ok
    {
      RespondAtomicSpec(Snapshot(), invId, response, now);
      if invId !in invitations || invitations[invId].status != "pending" {
        return false;
      }
      var inv := invitations[invId];
      if response == "accepted" {
        var joined := JoinCommittee(inv.committeeId, inv.invitedUserId, now);
        if !joined {
          return false;
        }
      }
      InvitationUpdateKeepsValid(Snapshot(), invId, Answered(inv, response, now));
      invitations := invitations[invId := Answered(inv, response, now)];
      ok := true;
    }
  }
}
