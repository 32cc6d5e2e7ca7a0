/**
 * The session-state committee manager: a list of committee records kept for the browser
 * session, with member management, payment recording, search, validation and the clean-up of
 * expired committees. Committee ids are opaque strings; created dates are day numbers, payment
 * dates the "YYYY-MM-DD" text the page stores.
 */
module DataManager {
  import opened Wrappers
  import opened Text
  import opened Sequences

  datatype PaymentRecord = PaymentRecord(memberId: string, amount: int, date: string, status: string, paymentMethod: string, transactionId: int)

  datatype PayoutEntry = PayoutEntry(memberId: string, position: int, payoutDate: int, amount: int, status: string)

  datatype SessionCommittee = SessionCommittee(
    id: string, title: string, monthlyAmount: int, totalMembers: int, currentMembers: int, duration: int,
    committeeType: string, category: string, description: string, adminId: string, status: string,
    createdDate: int, members: seq<string>, paymentHistory: seq<PaymentRecord>, payoutSchedule: seq<PayoutEntry>)

  /** The answer of a member operation: success and the message shown. */
  datatype Reply = Reply(ok: bool, message: string)

  datatype Outcome = Outcome(committees: seq<SessionCommittee>, reply: Reply)

  const NotFound := "Committee not found"
  const AlreadyMember := "User is already a member"
  const CommitteeFull := "Committee is full"
  const MemberAdded := "Member added successfully"
  const NotAMember := "User is not a member"
  const CannotRemoveAdmin := "Cannot remove admin from committee"
  const MemberRemoved := "Member removed successfully"
  const NotAMemberOfCommittee := "User is not a member of this committee"
  const PaymentRecorded := "Payment recorded successfully"

  // ---------------------------------------------------------------- consistency

  predicate NoDuplicates(s: seq<string>) {
    forall i, j :: 0 <= i < j < |s| ==> s[i] != s[j]
  }

  /** Member lists without repetition, as add and remove keep them. */
  predicate MembersUnique(cs: seq<SessionCommittee>) {
    forall i :: 0 <= i < |cs| ==> NoDuplicates(cs[i].members)
  }

  predicate WithinCapacity(cs: seq<SessionCommittee>) {
    forall i :: 0 <= i < |cs| ==> cs[i].currentMembers <= cs[i].totalMembers
  }

  /** The stored member count agrees with the member list. */
  predicate CountsMatch(cs: seq<SessionCommittee>) {
    forall i :: 0 <= i < |cs| ==> cs[i].currentMembers == |cs[i].members|
  }

  // ---------------------------------------------------------------- lookup

  /** `get_committee_by_id`: the first committee with the id. */
  function FirstWithId(cs: seq<SessionCommittee>, id: string): (r: Option<nat>)
    ensures r.Some? ==> r.value < |cs| && cs[r.value].id == id && forall j :: 0 <= j < r.value ==> cs[j].id != id
    ensures r.None? <==> forall j :: 0 <= j < |cs| ==> cs[j].id != id
  {
    if cs == [] then None
    else if cs[0].id == id then Some(0)
    else match FirstWithId(cs[1..], id)
      case None => None
      case Some(k) => Some(k + 1)
  }

  // ---------------------------------------------------------------- member operations

  /** `add_member_to_committee` */
  function AddMember(cs: seq<SessionCommittee>, id: string, username: string): Outcome {
    match FirstWithId(cs, id)
    case None => Outcome(cs, Reply(false, NotFound))
    case Some(i) =>
      var c := cs[i];
      if username in c.members then Outcome(cs, Reply(false, AlreadyMember))
      else if c.currentMembers >= c.totalMembers then Outcome(cs, Reply(false, CommitteeFull))
      else Outcome(cs[i := c.(members := c.members + [username], currentMembers := c.currentMembers + 1)], Reply(true, MemberAdded))
  }

  /** Adding fails, in this order, for a missing committee, an existing member and a full
      committee, and then changes nothing; otherwise it appends the user and counts one more
      member, in that committee only. */
  lemma AddMemberSpec(cs: seq<SessionCommittee>, id: string, username: string)
    ensures var r := AddMember(cs, id, username);
      && (FirstWithId(cs, id).None? ==> r == Outcome(cs, Reply(false, NotFound)))
      && (FirstWithId(cs, id).Some? ==>
            var i := FirstWithId(cs, id).value;
            && (username in cs[i].members ==> r == Outcome(cs, Reply(false, AlreadyMember)))
            && (username !in cs[i].members && cs[i].currentMembers >= cs[i].totalMembers ==> r == Outcome(cs, Reply(false, CommitteeFull)))
            && (r.reply.ok <==> username !in cs[i].members && cs[i].currentMembers < cs[i].totalMembers)
            && (r.reply.ok ==>
                  && |r.committees| == |cs|
                  && r.committees[i].members == cs[i].members + [username]
                  && r.committees[i].currentMembers == cs[i].currentMembers + 1
                  && r.committees[i].(members := cs[i].members, currentMembers := cs[i].currentMembers) == cs[i]
                  && forall j :: 0 <= j < |cs| && j != i ==> r.committees[j] == cs[j]))
  {
  }

  /** Adding keeps member lists free of repetition and counts within capacity, and keeps the gap
      between the stored count and the list. */
  lemma AddMemberKeepsInvariants(cs: seq<SessionCommittee>, id: string, username: string)
    ensures MembersUnique(cs) ==> MembersUnique(AddMember(cs, id, username).committees)
    ensures WithinCapacity(cs) ==> WithinCapacity(AddMember(cs, id, username).committees)
    ensures var r := AddMember(cs, id, username).committees;
      |r| == |cs| && forall j :: 0 <= j < |cs| ==> r[j].currentMembers - |r[j].members| == cs[j].currentMembers - |cs[j].members|
  {
    var r := AddMember(cs, id, username);
    if r.reply.ok {
      var i := FirstWithId(cs, id).value;
      if MembersUnique(cs) {
        forall j | 0 <= j < |r.committees| ensures NoDuplicates(r.committees[j].members) {
          if j == i {
            assert r.committees[i].members == cs[i].members + [username];
            assert NoDuplicates(cs[j].members);
          } else {
            assert r.committees[j] == cs[j];
          }
        }
      }
    }
  }

  /** `list.remove`: drops the first occurrence of `x`. */
  function RemoveFirst(s: seq<string>, x: string): (r: seq<string>)
    ensures x in s ==> |r| == |s| - 1 && multiset(r) == multiset(s) - multiset{x}
    ensures x !in s ==> r == s
  {
    if s == [] then []
    else
      assert s == [s[0]] + s[1..];
      if s[0] == x then s[1..] else [s[0]] + RemoveFirst(s[1..], x)
  }

  /** With no repetition, removing `x` leaves exactly the other members and none twice. */
  lemma {:induction false} RemoveFirstUnique(s: seq<string>, x: string)
    requires NoDuplicates(s)
    ensures NoDuplicates(RemoveFirst(s, x))
    ensures x !in RemoveFirst(s, x)
    ensures forall y :: y in RemoveFirst(s, x) <==> y in s && y != x
  {
    if s != [] {
      if s[0] == x {
        assert forall k :: 0 <= k < |s[1..]| ==> s[1..][k] == s[k + 1];
      } else {
        assert NoDuplicates(s[1..]) by {
          assert forall k :: 0 <= k < |s[1..]| ==> s[1..][k] == s[k + 1];
        }
        RemoveFirstUnique(s[1..], x);
        var t := RemoveFirst(s[1..], x);
        assert s[0] !in s[1..];
        assert s[0] !in t;
        forall a, b | 0 <= a < b < |[s[0]] + t| ensures ([s[0]] + t)[a] != ([s[0]] + t)[b] {
          if a == 0 {
            assert ([s[0]] + t)[b] == t[b - 1];
            assert t[b - 1] in t;
          } else {
            assert ([s[0]] + t)[a] == t[a - 1] && ([s[0]] + t)[b] == t[b - 1];
          }
        }
      }
    }
  }

  /** `remove_member_from_committee` */
  function RemoveMember(cs: seq<SessionCommittee>, id: string, username: string): Outcome {
    match FirstWithId(cs, id)
    case None => Outcome(cs, Reply(false, NotFound))
    case Some(i) =>
      var c := cs[i];
      if username !in c.members then Outcome(cs, Reply(false, NotAMember))
      else if username == c.adminId then Outcome(cs, Reply(false, CannotRemoveAdmin))
      else Outcome(cs[i := c.(members := RemoveFirst(c.members, username), currentMembers := c.currentMembers - 1)], Reply(true, MemberRemoved))
  }

  /** Removing fails, in this order, for a missing committee, a non-member and the admin, and then
      changes nothing; otherwise the user leaves the list and the count drops by one, in that
      committee only. */
  lemma RemoveMemberSpec(cs: seq<SessionCommittee>, id: string, username: string)
    ensures var r := RemoveMember(cs, id, username);
      && (FirstWithId(cs, id).None? ==> r == Outcome(cs, Reply(false, NotFound)))
      && (FirstWithId(cs, id).Some? ==>
            var i := FirstWithId(cs, id).value;
            && (username !in cs[i].members ==> r == Outcome(cs, Reply(false, NotAMember)))
            && (username in cs[i].members && username == cs[i].adminId ==> r == Outcome(cs, Reply(false, CannotRemoveAdmin)))
            && (r.reply.ok <==> username in cs[i].members && username != cs[i].adminId)
            && (r.reply.ok ==>
                  && |r.committees| == |cs|
                  && multiset(r.committees[i].members) == multiset(cs[i].members) - multiset{username}
                  && r.committees[i].currentMembers == cs[i].currentMembers - 1
                  && r.committees[i].adminId == cs[i].adminId
                  && forall j :: 0 <= j < |cs| && j != i ==> r.committees[j] == cs[j]))
  {
  }

  /** Removing keeps member lists free of repetition, never removes an admin, takes the user off
      the list entirely, and keeps the gap between the stored count and the list. */
  lemma RemoveMemberKeepsInvariants(cs: seq<SessionCommittee>, id: string, username: string)
    ensures MembersUnique(cs) ==> MembersUnique(RemoveMember(cs, id, username).committees)
    ensures WithinCapacity(cs) ==> WithinCapacity(RemoveMember(cs, id, username).committees)
    ensures MembersUnique(cs) && RemoveMember(cs, id, username).reply.ok ==>
      username !in RemoveMember(cs, id, username).committees[FirstWithId(cs, id).value].members
    ensures var r := RemoveMember(cs, id, username).committees;
      |r| == |cs| && forall j :: 0 <= j < |cs| ==> r[j].currentMembers - |r[j].members| == cs[j].currentMembers - |cs[j].members|
  {
    var r := RemoveMember(cs, id, username);
    if r.reply.ok {
      var i := FirstWithId(cs, id).value;
      if MembersUnique(cs) {
        RemoveFirstUnique(cs[i].members, username);
        forall j | 0 <= j < |r.committees| ensures NoDuplicates(r.committees[j].members) {
          if j != i {
            assert r.committees[j] == cs[j];
          }
        }
      }
    }
  }

  /** `record_payment`: the transaction number is drawn at random and is a parameter here. */
  function RecordPayment(cs: seq<SessionCommittee>, id: string, username: string, amount: int, paymentMethod: string,
                         today: string, transactionId: int): Outcome
  {
    match FirstWithId(cs, id)
    case None => Outcome(cs, Reply(false, NotFound))
    case Some(i) =>
      var c := cs[i];
      if username !in c.members then Outcome(cs, Reply(false, NotAMemberOfCommittee))
      else
        var record := PaymentRecord(username, amount, today, "paid", paymentMethod, transactionId);
        Outcome(cs[i := c.(paymentHistory := c.paymentHistory + [record])], Reply(true, PaymentRecorded))
  }

  /** A payment is recorded only for an existing committee and one of its members, as exactly one
      new 'paid' record at the end of that committee's history. */
  lemma RecordPaymentSpec(cs: seq<SessionCommittee>, id: string, username: string, amount: int, paymentMethod: string,
                          today: string, transactionId: int)
    ensures var r := RecordPayment(cs, id, username, amount, paymentMethod, today, transactionId);
      && (r.reply.ok <==> FirstWithId(cs, id).Some? && username in cs[FirstWithId(cs, id).value].members)
      && (!r.reply.ok ==> r.committees == cs)
      && (FirstWithId(cs, id).None? ==> r.reply.message == NotFound)
      && (r.reply.ok ==>
            var i := FirstWithId(cs, id).value;
            && |r.committees| == |cs|
            && r.committees[i].paymentHistory == cs[i].paymentHistory + [PaymentRecord(username, amount, today, "paid", paymentMethod, transactionId)]
            && r.committees[i].(paymentHistory := cs[i].paymentHistory) == cs[i]
            && forall j :: 0 <= j < |cs| && j != i ==> r.committees[j] == cs[j])
  {
  }

  // ---------------------------------------------------------------- queries

  predicate PaidInMonth(p: PaymentRecord, username: string, month: string) {
    p.memberId == username && StartsWith(p.date, month) && p.status == "paid"
  }

  /** `generate_payout_schedule`: members in list order, one 30-day step apart from the
      creation date, each paid the monthly pot; an entry is 'pending' while its date lies in
      the future. */
  method GeneratePayoutSchedule(c: SessionCommittee, now: int) returns (schedule: seq<PayoutEntry>)
    ensures |schedule| == |c.members|
    ensures forall i :: 0 <= i < |schedule| ==>
      && schedule[i].memberId == c.members[i]
      && schedule[i].position == i + 1
      && schedule[i].payoutDate == c.createdDate + 30 * i
      && schedule[i].amount == c.monthlyAmount * c.currentMembers
      && (schedule[i].status == "pending" <==> schedule[i].payoutDate > now)
      && (schedule[i].status == "pending" || schedule[i].status == "completed")
  {
    schedule := [];
    var i := 0;
    while i < |c.members|
      invariant 0 <= i <= |c.members| && |schedule| == i
      invariant forall k :: 0 <= k < i ==>
        schedule[k] == PayoutEntry(c.members[k], k + 1, c.createdDate + 30 * k, c.monthlyAmount * c.currentMembers,
                                   if c.createdDate + 30 * k > now then "pending" else "completed")
    {
      var payoutDate := c.createdDate + 30 * i;
      var payoutAmount := c.monthlyAmount * c.currentMembers;
      schedule := schedule + [PayoutEntry(c.members[i], i + 1, payoutDate, payoutAmount, if payoutDate > now then "pending" else "completed")];
      i := i + 1;
    }
  }

  /** `get_user_payment_status`: 'paid' when some paid record of the user is dated in the month
      `month` ("YYYY-MM"), 'unpaid' otherwise. */
  method GetUserPaymentStatus(c: SessionCommittee, username: string, month: string) returns (status: string)
    ensures status == "paid" || status == "unpaid"
    ensures status == "paid" <==> exists k :: 0 <= k < |c.paymentHistory| && PaidInMonth(c.paymentHistory[k], username, month)
  {
    var k := 0;
    while k < |c.paymentHistory|
      invariant 0 <= k <= |c.paymentHistory|
      invariant forall j :: 0 <= j < k ==> !PaidInMonth(c.paymentHistory[j], username, month)
    {
      var p := c.paymentHistory[k];
      if p.memberId == username && StartsWith(p.date, month) && p.status == "paid" {
        return "paid";
      }
      k := k + 1;
    }
    return "unpaid";
  }

  /** One committee passes every criterion of `search_committees`; an empty query or category and
      a zero bound stand for the missing argument and check nothing. */
  predicate SearchMatches(c: SessionCommittee, query: string, category: string, minAmount: int, maxAmount: int) {
    && (query == "" || Contains(ToLower(c.title), ToLower(query)) || Contains(ToLower(c.description), ToLower(query)))
    && (category == "" || category == "All" || c.category == category)
    && (minAmount == 0 || c.monthlyAmount >= minAmount)
    && (maxAmount == 0 || c.monthlyAmount <= maxAmount)
  }

  function Searched(cs: seq<SessionCommittee>, query: string, category: string, minAmount: int, maxAmount: int): seq<SessionCommittee> {
    if cs == [] then []
    else (if SearchMatches(cs[0], query, category, minAmount, maxAmount) then [cs[0]] else [])
         + Searched(cs[1..], query, category, minAmount, maxAmount)
  }

  lemma SearchedStep(cs: seq<SessionCommittee>, i: int, query: string, category: string, minAmount: int, maxAmount: int)
    requires 0 <= i < |cs|
    ensures Searched(cs[i..], query, category, minAmount, maxAmount) ==
      (if SearchMatches(cs[i], query, category, minAmount, maxAmount) then [cs[i]] else []) + Searched(cs[i + 1..], query, category, minAmount, maxAmount)
  {
    assert cs[i..][1..] == cs[i + 1..];
  }

  /** The search keeps the input's order, keeps exactly the matching committees, honours each
      non-zero bound, and with no criteria returns every committee. */
  lemma {:induction false} SearchSpec(cs: seq<SessionCommittee>, query: string, category: string, minAmount: int, maxAmount: int)
    ensures IsSubsequence(Searched(cs, query, category, minAmount, maxAmount), cs)
    ensures forall c :: c in Searched(cs, query, category, minAmount, maxAmount) <==> c in cs && SearchMatches(c, query, category, minAmount, maxAmount)
    ensures forall c :: c in Searched(cs, query, category, minAmount, maxAmount) ==>
      (minAmount != 0 ==> c.monthlyAmount >= minAmount) && (maxAmount != 0 ==> c.monthlyAmount <= maxAmount)
    ensures query == "" && category == "" && minAmount == 0 && maxAmount == 0 ==> Searched(cs, query, category, minAmount, maxAmount) == cs
  {
    if cs != [] {
      SearchSpec(cs[1..], query, category, minAmount, maxAmount);
      var r := Searched(cs, query, category, minAmount, maxAmount);
      if SearchMatches(cs[0], query, category, minAmount, maxAmount) {
        assert r == [cs[0]] + Searched(cs[1..], query, category, minAmount, maxAmount);
        assert r[0] == cs[0] && r[1..] == Searched(cs[1..], query, category, minAmount, maxAmount);
      } else {
        assert r == Searched(cs[1..], query, category, minAmount, maxAmount);
      }
    }
  }

  // ---------------------------------------------------------------- validation

  /** A committee as submitted: any key may be missing. */
  datatype CommitteeData = CommitteeData(
    title: Option<string>, monthlyAmount: Option<int>, totalMembers: Option<int>, duration: Option<int>,
    committeeType: Option<string>)

  const TitleRequired := "Committee title is required"
  const AmountTooLow := "Monthly amount must be at least Rs. 1,000"
  const TooFewMembers := "Committee must have at least 2 members"
  const DurationTooShort := "Duration must be at least 1 month"
  const InvalidType := "Committee type must be either public or private"

  /** `validate_committee_data`: one message per failed check, in the order of the checks. A
      missing or zero value fails its check. */
  function ValidateCommitteeData(d: CommitteeData): seq<string> {
    (if d.title.None? || d.title.value == "" then [TitleRequired] else [])
    + (if d.monthlyAmount.None? || d.monthlyAmount.value < 1000 then [AmountTooLow] else [])
    + (if d.totalMembers.None? || d.totalMembers.value < 2 then [TooFewMembers] else [])
    + (if d.duration.None? || d.duration.value < 1 then [DurationTooShort] else [])
    + (if d.committeeType.None? || d.committeeType.value !in ["public", "private"] then [InvalidType] else [])
  }

  predicate CommitteeDataOk(d: CommitteeData) {
    && d.title.Some? && d.title.value != ""
    && d.monthlyAmount.Some? && d.monthlyAmount.value >= 1000
    && d.totalMembers.Some? && d.totalMembers.value >= 2
    && d.duration.Some? && d.duration.value >= 1
    && d.committeeType.Some? && d.committeeType.value in ["public", "private"]
  }

  /** No message exactly when all five checks pass, and never more than five. */
  lemma ValidateCommitteeDataSpec(d: CommitteeData)
    ensures ValidateCommitteeData(d) == [] <==> CommitteeDataOk(d)
    ensures |ValidateCommitteeData(d)| <= 5
  {
  }

  /** Each message appears exactly when its own check fails. */
  lemma ValidateCommitteeDataMessages(d: CommitteeData)
    ensures TitleRequired in ValidateCommitteeData(d) <==> d.title.None? || d.title.value == ""
    ensures AmountTooLow in ValidateCommitteeData(d) <==> d.monthlyAmount.None? || d.monthlyAmount.value < 1000
    ensures TooFewMembers in ValidateCommitteeData(d) <==> d.totalMembers.None? || d.totalMembers.value < 2
    ensures DurationTooShort in ValidateCommitteeData(d) <==> d.duration.None? || d.duration.value < 1
    ensures InvalidType in ValidateCommitteeData(d) <==> d.committeeType.None? || d.committeeType.value !in ["public", "private"]
  {
    assert |TitleRequired| == 27 && |AmountTooLow| == 41 && |TooFewMembers| == 38 && |DurationTooShort| == 33 && |InvalidType| == 47;
  }

  // ---------------------------------------------------------------- clean-up

  function EndDate(c: SessionCommittee): int { c.createdDate + 30 * c.duration }

  /** As written: a committee stays as it is only while it is active and before its end date;
      every other committee is marked completed. */
  function AfterCleanup(c: SessionCommittee, now: int): SessionCommittee {
    if now < EndDate(c) && c.status == "active" then c else c.(status := "completed")
  }

  /** As intended: only committees past their end date are marked completed. */
  function AfterExpiry(c: SessionCommittee, now: int): SessionCommittee {
    if now < EndDate(c) then c else c.(status := "completed")
  }

  /** A paused committee well before its end date is marked completed by the clean-up. */
  lemma CleanupCompletesPaused(c: SessionCommittee, now: int)
    requires c.status == "paused" && now < EndDate(c)
    ensures AfterCleanup(c, now).status == "completed"
    ensures AfterExpiry(c, now) == c
  {
  }

  /** The intended clean-up changes nothing but the status, leaves every committee before its end
      date exactly as it was, and completes every committee past it. */
  lemma AfterExpirySpec(c: SessionCommittee, now: int)
    ensures AfterExpiry(c, now).(status := c.status) == c
    ensures now < EndDate(c) ==> AfterExpiry(c, now) == c
    ensures now >= EndDate(c) ==> AfterExpiry(c, now).status == "completed"
    ensures AfterExpiry(AfterExpiry(c, now), now) == AfterExpiry(c, now)
  {
  }

  // ---------------------------------------------------------------- the session store

  /** The committees of one browser session. */
  class SessionData {
    var committees: seq<SessionCommittee>

    ghost predicate Valid()
      reads this
    {
      MembersUnique(committees)
    }

    /** The three seeded committees; their payment histories are drawn at random and start empty
        here. */
    constructor (ids: seq<string>, now: int)
      requires |ids| == 3
      ensures committees == SeedCommittees(ids, now)
      ensures Valid()
    {
      committees := SeedCommittees(ids, now);
      SeedMembersUnique(ids, now);
    }

    method GetCommitteeIndex(id: string) returns (found: Option<nat>)
      ensures found == FirstWithId(committees, id)
    {
      var i := 0;
      while i < |committees|
        invariant 0 <= i <= |committees|
        invariant forall j :: 0 <= j < i ==> committees[j].id != id
      {
        if committees[i].id == id {
          return Some(i);
        }
        i := i + 1;
      }
      return None;
    }

    method AddMemberToCommittee(id: string, username: string) returns (reply: Reply)
      requires Valid()
      modifies this
      ensures Valid()
      ensures committees == AddMember(old(committees), id, username).committees
      ensures reply == AddMember(old(committees), id, username).reply
    {
      AddMemberKeepsInvariants(committees, id, username);
      var found := GetCommitteeIndex(id);
      if found.None? {
        return Reply(false, NotFound);
      }
      var i := found.value;
      var c := committees[i];
      if username in c.members {
        return Reply(false, AlreadyMember);
      }
      if c.currentMembers >= c.totalMembers {
        return Reply(false, CommitteeFull);
      }
      committees := committees[i := c.(members := c.members + [username], currentMembers := c.currentMembers + 1)];
      return Reply(true, MemberAdded);
    }

    method RemoveMemberFromCommittee(id: string, username: string) returns (reply: Reply)
      requires Valid()
      modifies this
      ensures Valid()
      ensures committees == RemoveMember(old(committees), id, username).committees
      ensures reply == RemoveMember(old(committees), id, username).reply
    {
      RemoveMemberKeepsInvariants(committees, id, username);
      var found := GetCommitteeIndex(id);
      if found.None? {
        return Reply(false, NotFound);
      }
      var i := found.value;
      var c := committees[i];
      if username !in c.members {
        return Reply(false, NotAMember);
      }
      if username == c.adminId {
        return Reply(false, CannotRemoveAdmin);
      }
      committees := committees[i := c.(members := RemoveFirst(c.members, username), currentMembers := c.currentMembers - 1)];
      return Reply(true, MemberRemoved);
    }

    method RecordMemberPayment(id: string, username: string, amount: int, paymentMethod: string, today: string, transactionId: int)
      returns (reply: Reply)
      requires Valid()
      modifies this
      ensures Valid()
      ensures committees == RecordPayment(old(committees), id, username, amount, paymentMethod, today, transactionId).committees
      ensures reply == RecordPayment(old(committees), id, username, amount, paymentMethod, today, transactionId).reply
    {
      var found := GetCommitteeIndex(id);
      if found.None? {
        return Reply(false, NotFound);
      }
      var i := found.value;
      var c := committees[i];
      if username !in c.members {
        return Reply(false, NotAMemberOfCommittee);
      }
      var record := PaymentRecord(username, amount, today, "paid", paymentMethod, transactionId);
      committees := committees[i := c.(paymentHistory := c.paymentHistory + [record])];
      assert forall j :: 0 <= j < |committees| ==> committees[j].members == old(committees)[j].members;
      return Reply(true, PaymentRecorded);
    }

    method SearchCommittees(query: string, category: string, minAmount: int, maxAmount: int) returns (results: seq<SessionCommittee>)
      ensures results == Searched(committees, query, category, minAmount, maxAmount)
    {
      var cs := committees;
      results := [];
      var i := 0;
      while i < |cs|
        invariant 0 <= i <= |cs|
        invariant results + Searched(cs[i..], query, category, minAmount, maxAmount) == Searched(cs, query, category, minAmount, maxAmount)
      {
        var c := cs[i];
        SearchedStep(cs, i, query, category, minAmount, maxAmount);
        var skip := false;
        if query != "" && !Contains(ToLower(c.title), ToLower(query)) && !Contains(ToLower(c.description), ToLower(query)) {
          skip := true;
        } else if category != "" && category != "All" && c.category != category {
          skip := true;
        } else if minAmount != 0 && c.monthlyAmount < minAmount {
          skip := true;
        } else if maxAmount != 0 && c.monthlyAmount > maxAmount {
          skip := true;
        }
        assert skip <==> !SearchMatches(c, query, category, minAmount, maxAmount);
        ghost var rest := Searched(cs[i + 1..], query, category, minAmount, maxAmount);
        if !skip {
          assert (results + [c]) + rest == results + ([c] + rest);
          results := results + [c];
        } else {
          assert [] + rest == rest;
        }
        i := i + 1;
      }
      assert cs[i..] == [];
    }

    /** `cleanup_expired_committees` as written. */
    method CleanupExpiredCommittees(now: int)
      requires Valid()
      modifies this
      ensures Valid()
      ensures |committees| == |old(committees)|
      ensures forall i :: 0 <= i < |committees| ==> committees[i] == AfterCleanup(old(committees)[i], now)
    {
      var kept: seq<SessionCommittee> := [];
      var i := 0;
      while i < |committees|
        invariant 0 <= i <= |committees| && |kept| == i
        invariant forall k :: 0 <= k < i ==> kept[k] == AfterCleanup(committees[k], now)
      {
        var c := committees[i];
        if now < c.createdDate + 30 * c.duration && c.status == "active" {
          kept := kept + [c];
        } else {
          kept := kept + [c.(status := "completed")];
        }
        i := i + 1;
      }
      committees := kept;
      assert forall k :: 0 <= k < |committees| ==> committees[k].members == old(committees)[k].members;
    }

    /** The clean-up marking only expired committees. */
    method CleanupExpiredCommitteesChecked(now: int)
      requires Valid()
      modifies this
      ensures Valid()
      ensures |committees| == |old(committees)|
      ensures forall i :: 0 <= i < |committees| ==> committees[i] == AfterExpiry(old(committees)[i], now)
    {
      var kept: seq<SessionCommittee> := [];
      var i := 0;
      while i < |committees|
        invariant 0 <= i <= |committees| && |kept| == i
        invariant forall k :: 0 <= k < i ==> kept[k] == AfterExpiry(committees[k], now)
      {
        var c := committees[i];
        if now < c.createdDate + 30 * c.duration {
          kept := kept + [c];
        } else {
          kept := kept + [c.(status := "completed")];
        }
        i := i + 1;
      }
      committees := kept;
      assert forall k :: 0 <= k < |committees| ==> committees[k].members == old(committees)[k].members;
    }
  }

  // ---------------------------------------------------------------- seed data

  /** A seeded committee, with its payout schedule generated from the creation date. */
  function Seed(id: string, title: string, amount: int, total: int, current: int, duration: int, committeeType: string,
                category: string, description: string, adminId: string, created: int, members: seq<string>, now: int): SessionCommittee
  {
    SessionCommittee(id, title, amount, total, current, duration, committeeType, category, description, adminId, "active",
                     created, members, [], PayoutScheduleOf(members, created, amount * current, now))
  }

  function PayoutScheduleOf(members: seq<string>, created: int, amount: int, now: int): seq<PayoutEntry> {
    seq(|members|, i requires 0 <= i < |members| =>
      PayoutEntry(members[i], i + 1, created + 30 * i, amount, if created + 30 * i > now then "pending" else "completed"))
  }

  const TechTitle := "Tech Professionals Committee"
  const TechDescription := "A committee for IT professionals to save for tech equipment and professional development"
  const FamilyTitle := "Family Savings Circle"
  const FamilyDescription := "Family members saving for household expenses and emergencies"
  const HajjTitle := "Hajj Fund Committee"
  const HajjDescription := "Saving for Hajj pilgrimage expenses in a halal way"
  const TechMembers: seq<string> := ["admin", "sara", "hassan"]
  const FamilyMembers: seq<string> := ["sara", "hassan"]
  const HajjMembers: seq<string> := ["hassan", "admin"]

  /** The seeded committees as written, created on days 14, 31 and 60 of 2024. Their stored member
      counts are 8, 6 and 10 while their member lists hold 3, 2 and 2 names. */
  function SeedCommittees(ids: seq<string>, now: int): seq<SessionCommittee>
    requires |ids| == 3
  {
    [ Seed(ids[0], TechTitle, 15000, 12, 8, 12, "public", "Business", TechDescription, "admin", 14, TechMembers, now),
      Seed(ids[1], FamilyTitle, 8000, 8, 6, 8, "private", "Family", FamilyDescription, "sara", 31, FamilyMembers, now),
      Seed(ids[2], HajjTitle, 25000, 15, 10, 18, "public", "General", HajjDescription, "hassan", 60, HajjMembers, now) ]
  }

  /** The seeded committees with each count taken from its member list. */
  function SeedCommitteesConsistent(ids: seq<string>, now: int): (cs: seq<SessionCommittee>)
    requires |ids| == 3
    ensures |cs| == 3
  {
    var s := SeedCommittees(ids, now);
    seq(3, i requires 0 <= i < 3 => s[i].(currentMembers := |s[i].members|, payoutSchedule := PayoutScheduleOf(s[i].members, s[i].createdDate, s[i].monthlyAmount * |s[i].members|, now)))
  }

  lemma SeedMembersUnique(ids: seq<string>, now: int)
    requires |ids| == 3
    ensures MembersUnique(SeedCommittees(ids, now))
  {
    var s := SeedCommittees(ids, now);
    assert s[0].members == TechMembers && s[1].members == FamilyMembers && s[2].members == HajjMembers;
  }

  /** As written, no seeded committee's count matches its list: the capacity check, which reads
      the count, leaves the first committee 4 places where its list has 9 free. */
  lemma SeedCountsDisagree(ids: seq<string>, now: int)
    requires |ids| == 3
    ensures forall i :: 0 <= i < 3 ==> SeedCommittees(ids, now)[i].currentMembers != |SeedCommittees(ids, now)[i].members|
    ensures var c := SeedCommittees(ids, now)[0];
      c.totalMembers - c.currentMembers == 4 && c.totalMembers - |c.members| == 9
  {
    var s := SeedCommittees(ids, now);
    assert s[0].members == TechMembers && s[1].members == FamilyMembers && s[2].members == HajjMembers;
  }

  /** With counts taken from the lists, the seed is consistent, within capacity and free of
      repetition, and adding and removing keep it consistent. */
  lemma SeedCommitteesConsistentSpec(ids: seq<string>, now: int, id: string, username: string)
    requires |ids| == 3
    ensures var cs := SeedCommitteesConsistent(ids, now);
      CountsMatch(cs) && WithinCapacity(cs) && MembersUnique(cs)
    ensures forall cs :: CountsMatch(cs) ==> CountsMatch(AddMember(cs, id, username).committees) && CountsMatch(RemoveMember(cs, id, username).committees)
  {
    var s := SeedCommittees(ids, now);
    SeedMembersUnique(ids, now);
    var cs := SeedCommitteesConsistent(ids, now);
    assert forall i :: 0 <= i < 3 ==> cs[i].members == s[i].members && cs[i].totalMembers == s[i].totalMembers;
    forall cs | CountsMatch(cs) ensures CountsMatch(AddMember(cs, id, username).committees) && CountsMatch(RemoveMember(cs, id, username).committees) {
      AddMemberKeepsInvariants(cs, id, username);
      RemoveMemberKeepsInvariants(cs, id, username);
    }
  }
}
