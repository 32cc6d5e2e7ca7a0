/**
 * `PaymentManager`: the contribution and payout calendars of a committee, the incremental trust
 * adjustment after a payment, the amount check, and the payment reminders and payout notifications
 * a user receives.
 * Dates are day numbers; `now` is a parameter.
 */
module PaymentManager {
  import opened Wrappers
  import opened Models
  import opened Store
  import TrustScore

  /** Days between two cycles: 60 for "bi_monthly", 30 for "monthly" and for anything else. */
  function IntervalDays(frequency: string): (days: int)
    ensures days == 30 || days == 60
    ensures days == 60 <==> frequency == PaymentFrequencyValue(BiMonthly)
  {
    if frequency == PaymentFrequencyValue(Monthly) then 30
    else if frequency == PaymentFrequencyValue(BiMonthly) then 60
    else 30
  }

  /** One contribution cycle; the per-member amount is left unset by the source. */
  datatype PaymentCycle = PaymentCycle(cycle: int, dueDate: int, amountPerMember: Option<int>)

  /** The cycles `calculate_payment_schedule` lists: one per value of `range(duration)`. */
  function PaymentScheduleOf(start: int, frequency: string, duration: int): seq<PaymentCycle> {
    var n := if duration > 0 then duration else 0;
    seq(n, i requires 0 <= i < n => PaymentCycle(i + 1, start + IntervalDays(frequency) * i, None))
  }

  method CalculatePaymentSchedule(start: int, frequency: string, duration: int) returns (schedule: seq<PaymentCycle>)
    ensures schedule == PaymentScheduleOf(start, frequency, duration)
  {
    var interval := IntervalDays(frequency);
    schedule := [];
    var cycle := 0;
    while cycle < duration
      invariant 0 <= cycle <= (if duration > 0 then duration else 0)
      invariant |schedule| == cycle
      invariant forall i :: 0 <= i < cycle ==> schedule[i] == PaymentCycle(i + 1, start + interval * i, None)
    {
      schedule := schedule + [PaymentCycle(cycle + 1, start + interval * cycle, None)];
      cycle := cycle + 1;
    }
    ghost var spec := PaymentScheduleOf(start, frequency, duration);
    assert |schedule| == |spec|;
    assert forall i :: 0 <= i < |spec| ==> schedule[i] == spec[i];
  }

  /** `duration` cycles numbered 1..duration in order, the first due on the start date, each
      due one interval after the previous one. */
  lemma PaymentScheduleShape(start: int, frequency: string, duration: int)
    ensures var s := PaymentScheduleOf(start, frequency, duration);
      && |s| == (if duration > 0 then duration else 0)
      && (forall i :: 0 <= i < |s| ==> s[i].cycle == i + 1 && s[i].amountPerMember.None?)
      && (|s| > 0 ==> s[0].dueDate == start)
      && (forall i :: 0 <= i < |s| - 1 ==> s[i + 1].dueDate == s[i].dueDate + IntervalDays(frequency))
      && (forall i, j :: 0 <= i < j < |s| ==> s[i].dueDate < s[j].dueDate)
  {
    var s := PaymentScheduleOf(start, frequency, duration);
    var d := IntervalDays(frequency);
    forall i, j | 0 <= i < j < |s| ensures s[i].dueDate < s[j].dueDate {
      assert d * j - d * i == d * (j - i);
      assert d * (j - i) >= d;
    }
  }

  /** One payout slot. */
  datatype PayoutSlot = PayoutSlot(position: int, memberId: Id, payoutDate: int, isCompleted: bool)

  /** The slots `calculate_payout_schedule` lists: members in order, positions from 1. */
  function PayoutScheduleOf(members: seq<Id>, start: int, frequency: string): seq<PayoutSlot> {
    seq(|members|, i requires 0 <= i < |members| => PayoutSlot(i + 1, members[i], start + IntervalDays(frequency) * i, false))
  }

  method CalculatePayoutSchedule(members: seq<Id>, start: int, frequency: string) returns (schedule: seq<PayoutSlot>)
    ensures schedule == PayoutScheduleOf(members, start, frequency)
  {
    var interval := IntervalDays(frequency);
    schedule := [];
    var position := 1;
    while position <= |members|
      invariant 1 <= position <= |members| + 1
      invariant |schedule| == position - 1
      invariant forall i :: 0 <= i < position - 1 ==> schedule[i] == PayoutSlot(i + 1, members[i], start + interval * i, false)
    {
      schedule := schedule + [PayoutSlot(position, members[position - 1], start + interval * (position - 1), false)];
      position := position + 1;
    }
  }

  /** One slot per member in input order, none completed, the first paid out on the start
      date and each later one strictly later; positions are distinct. */
  lemma PayoutScheduleShape(members: seq<Id>, start: int, frequency: string)
    ensures var s := PayoutScheduleOf(members, start, frequency);
      && |s| == |members|
      && (forall i :: 0 <= i < |s| ==> s[i].position == i + 1 && s[i].memberId == members[i] && !s[i].isCompleted)
      && (forall i :: 0 <= i < |s| ==> s[i].payoutDate == start + IntervalDays(frequency) * (s[i].position - 1))
      && (|s| > 0 ==> s[0].payoutDate == start)
      && (forall i, j :: 0 <= i < j < |s| ==> s[i].payoutDate < s[j].payoutDate && s[i].position != s[j].position)
  {
    var s := PayoutScheduleOf(members, start, frequency);
    var d := IntervalDays(frequency);
    forall i, j | 0 <= i < j < |s| ensures s[i].payoutDate < s[j].payoutDate {
      assert d * j - d * i == d * (j - i);
      assert d * (j - i) >= d;
    }
  }

  /** The adjustment `update_trust_score_for_payment` computes: +1 capped at 100 when on time,
      -3 floored at 0 when late. */
  function TrustAfterPayment(score: int, onTime: bool): int {
    if onTime then TrustScore.Min(MaxTrustScore, score + 1) else TrustScore.Max(MinTrustScore, score - 3)
  }

  /** The adjustment keeps a score in 0..100, never lowers it after an on-time payment, never
      raises it after a late one, and moves it by at most 1 up or 3 down. */
  lemma TrustAfterPaymentSpec(score: int, onTime: bool)
    requires TrustScoreInRange(score)
    ensures TrustScoreInRange(TrustAfterPayment(score, onTime))
    ensures onTime ==> score <= TrustAfterPayment(score, onTime) <= score + 1
    ensures !onTime ==> score - 3 <= TrustAfterPayment(score, onTime) <= score
    ensures TrustAfterPayment(score, onTime) == score <==> (onTime && score == MaxTrustScore) || (!onTime && score == MinTrustScore)
  {
  }

  /** The score `update_trust_score_for_payment` arrives at for a stored user; the source then
      discards it, so nothing in the store changes. */
  function UpdateTrustScoreForPayment(users: map<Id, User>, uid: Id, onTime: bool): Option<int> {
    if uid in users then Some(TrustAfterPayment(users[uid].trustScore, onTime)) else None
  }

  /** `validate_payment_amount`. */
  predicate ValidatePaymentAmount(amount: int) {
    amount > 0
  }

  /** The amount check is exactly the schema's CHECK (amount > 0) on payments. */
  lemma ValidatePaymentAmountMatchesSchema(p: Payment)
    requires ParsePaymentStatus(p.status).Some?
    ensures ValidatePaymentAmount(p.amount) <==> PaymentRowOk(p)
  {
  }

  datatype PaymentReminder = PaymentReminder(committeeId: Id, committeeTitle: string, amount: int, dueDate: int, daysUntilDue: int)

  const ReminderLeadDays := 7

  /** The reminder for one committee: its monthly amount, due a fixed week from now. */
  function ReminderFor(c: Committee, now: int): PaymentReminder {
    PaymentReminder(c.id, c.title, c.monthlyAmount, now + ReminderLeadDays, ReminderLeadDays)
  }

  /** `get_payment_reminders`: one reminder for each committee `get_user_committees` lists, in that
      order, so exactly one for each committee the user is a member of. */
  method GetPaymentReminders(db: DatabaseManager, uid: Id, now: int) returns (rs: seq<PaymentReminder>)
    requires db.Valid()
    ensures |rs| == |UserCommitteesBelow(db.members, db.committees, uid, db.nextId)|
    ensures forall i :: 0 <= i < |rs| ==> rs[i] == ReminderFor(UserCommitteesBelow(db.members, db.committees, uid, db.nextId)[i], now)
    ensures forall r :: r in rs <==> exists c, m: Id :: MembershipTo(db.members, db.committees, uid, m, c) && r == ReminderFor(c, now)
    ensures forall i, j :: 0 <= i < j < |rs| ==> rs[i].committeeId != rs[j].committeeId
  {
    var committees := db.GetUserCommittees(uid);
    rs := [];
    for i := 0 to |committees|
      invariant |rs| == i
      invariant forall k :: 0 <= k < i ==> rs[k] == ReminderFor(committees[k], now)
    {
      rs := rs + [ReminderFor(committees[i], now)];
    }
    forall r | r in rs ensures exists c, m: Id :: MembershipTo(db.members, db.committees, uid, m, c) && r == ReminderFor(c, now) {
      var k :| 0 <= k < |rs| && rs[k] == r;
      assert committees[k] in committees;
    }
    forall r | exists c, m: Id :: MembershipTo(db.members, db.committees, uid, m, c) && r == ReminderFor(c, now) ensures r in rs {
      var c, m: Id :| MembershipTo(db.members, db.committees, uid, m, c) && r == ReminderFor(c, now);
      assert c in committees;
      var k :| 0 <= k < |committees| && committees[k] == c;
      assert rs[k] == r;
    }
  }

  datatype PayoutNotification = PayoutNotification(committeeId: Id, committeeTitle: string, amount: int, estimatedDate: int)

  const NotificationLeadDays := 7

  /** The notifications for a list of committees, in list order: one for each committee the user
      holds position 1 in, which in a valid store is each committee the user administers. */
  function NotificationsFor(cs: seq<Committee>, uid: Id, now: int): seq<PayoutNotification>
    decreases |cs|
  {
    if cs == [] then []
    else
      var c := cs[|cs| - 1];
      NotificationsFor(cs[..|cs| - 1], uid, now) + (if c.adminId == uid then [NotificationFor(c, now)] else [])
  }

  /** Each notification is for a listed committee the user administers, each such committee is
      notified, and distinct committees give notifications for distinct committee ids. */
  lemma {:induction false} NotificationsForSpec(cs: seq<Committee>, uid: Id, now: int)
    ensures forall n :: n in NotificationsFor(cs, uid, now) <==> exists c :: c in cs && c.adminId == uid && n == NotificationFor(c, now)
    ensures CommitteeIdsDistinct(cs) ==> NotificationIdsDistinct(NotificationsFor(cs, uid, now))
    decreases |cs|
  {
    if cs != [] {
      var init, c := cs[..|cs| - 1], cs[|cs| - 1];
      assert cs == init + [c];
      NotificationsForSpec(init, uid, now);
      var ns0 := NotificationsFor(init, uid, now);
      var ns := NotificationsFor(cs, uid, now);
      forall n | exists c' :: c' in cs && c'.adminId == uid && n == NotificationFor(c', now) ensures n in ns {
        var c' :| c' in cs && c'.adminId == uid && n == NotificationFor(c', now);
        if c' != c {
          assert c' in init;
        }
      }
      if CommitteeIdsDistinct(cs) {
        assert CommitteeIdsDistinct(init) by {
          forall i, j | 0 <= i < j < |init| ensures init[i].id != init[j].id {
            assert init[i] == cs[i] && init[j] == cs[j];
          }
        }
        if c.adminId == uid {
          forall i | 0 <= i < |ns0| ensures ns0[i].committeeId != c.id {
            assert ns0[i] in ns0;
            var c' :| c' in init && c'.adminId == uid && ns0[i] == NotificationFor(c', now);
            var k :| 0 <= k < |init| && init[k] == c';
            assert cs[k] == c' && cs[|cs| - 1] == c;
          }
          forall i, j | 0 <= i < j < |ns| ensures ns[i].committeeId != ns[j].committeeId {
            if j < |ns0| {
              assert ns[i] == ns0[i] && ns[j] == ns0[j];
            } else {
              assert ns[i] == ns0[i];
            }
          }
        }
      }
    }
  }

  predicate NotificationIdsDistinct(ns: seq<PayoutNotification>) {
    forall i, j :: 0 <= i < j < |ns| ==> ns[i].committeeId != ns[j].committeeId
  }

  /** `get_payout_notifications`: for each of the user's committees in which the user holds position
      1, the whole pot (monthly amount times current members), a week from now, in the order
      `get_user_committees` lists them. In a valid store position 1 is the admin's, so these are
      exactly the committees the user administers, one notification each. */
  method GetPayoutNotifications(db: DatabaseManager, uid: Id, now: int) returns (ns: seq<PayoutNotification>)
    requires db.Valid()
    ensures ns == NotificationsFor(UserCommitteesBelow(db.members, db.committees, uid, db.nextId), uid, now)
    ensures forall n :: n in ns ==> exists c :: c in db.committees.Values && c.adminId == uid && n == NotificationFor(c, now)
    ensures forall c :: c in db.committees.Values && c.adminId == uid ==> NotificationFor(c, now) in ns
    ensures NotificationIdsDistinct(ns)
  {
    var committees := db.GetUserCommittees(uid);
    ns := [];
    for i := 0 to |committees|
      invariant ns == NotificationsFor(committees[..i], uid, now)
    {
      var c := committees[i];
      assert c in committees;
      var position := db.GetMemberPosition(c.id, uid);
      assert committees[..i + 1][..i] == committees[..i];
      if position == 1 {
        ns := ns + [NotificationFor(c, now)];
      }
    }
    assert committees[..|committees|] == committees;
    NotificationsForSpec(committees, uid, now);
    assert CommitteeIdsDistinct(committees);
    forall n | n in ns ensures exists c :: c in db.committees.Values && c.adminId == uid && n == NotificationFor(c, now) {
      var c :| c in committees && c.adminId == uid && n == NotificationFor(c, now);
      var m: Id :| MembershipTo(db.members, db.committees, uid, m, c);
      assert c in db.committees.Values;
    }
    forall c | c in db.committees.Values && c.adminId == uid ensures NotificationFor(c, now) in ns {
      var k :| k in db.committees && db.committees[k] == c;
      AdminIsMember(db.Snapshot(), k);
      var m :| m in db.members && db.members[m].committeeId == k && db.members[m].userId == uid;
      assert MembershipTo(db.members, db.committees, uid, m, c);
      assert c in committees;
    }
  }

  function NotificationFor(c: Committee, now: int): PayoutNotification {
    PayoutNotification(c.id, c.title, c.monthlyAmount * c.currentMembers, now + NotificationLeadDays)
  }
}
