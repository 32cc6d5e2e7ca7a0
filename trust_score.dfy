/**
 * The trust score engine of `TrustScoreManager`: a base of 50 plus a payment part (at most 40),
 * a completion part (at most 30) and a tenure part (at most 20), clamped to 0..100, with 85 for a
 * user who has neither payments nor committees.
 *
 * The Python computes the payment and completion parts in floating point and truncates with
 * `int(...)`; here the same quantities are exact rationals, floored. The two `hasattr` probes are
 * made on dictionaries and therefore always fail: the account age and the stored score arrive as
 * `Option` inputs, `None` being what the code as written always sees. The on-time probe of the
 * payment part fails too, since the store's payments have no due date: as wired, the payment part
 * is at most 25.
 */
module TrustScore {
  import opened Wrappers
  import opened Models
  import opened Sequences

  const BaseScore := 50
  const PaymentWeight := 25
  const OnTimeWeight := 15
  const CompletionWeight := 20
  const ActiveBonusCap := 10
  const TenureCap := 20
  const DaysPerMonth := 30

  function Min(a: int, b: int): int { if a <= b then a else b }
  function Max(a: int, b: int): int { if a >= b then a else b }

  /** `min(100, max(0, x))`. */
  function Clamp(x: int): (r: int)
    ensures TrustScoreInRange(r)
    ensures TrustScoreInRange(x) ==> r == x
    ensures x < MinTrustScore ==> r == MinTrustScore
    ensures x > MaxTrustScore ==> r == MaxTrustScore
  {
    Min(MaxTrustScore, Max(MinTrustScore, x))
  }

  // ---------------------------------------------------------------- payment part

  /** `[p for p in payments if p.status == 'paid']`: every paid payment, each occurrence
      once, in the order given. */
  function PaidPayments(ps: seq<Payment>): (r: seq<Payment>)
    ensures |r| <= |ps|
    ensures forall p :: p in r <==> p in ps && p.status == "paid"
  {
    if ps == [] then []
    else (if ps[0].status == "paid" then [ps[0]] else []) + PaidPayments(ps[1..])
  }

  /** The paid list is the order-preserving filter: every paid payment, as often as it occurs,
      nothing else, in the order given; so its length is the number of paid payments. */
  lemma {:induction false} PaidPaymentsSpec(ps: seq<Payment>)
    ensures IsSubsequence(PaidPayments(ps), ps)
    ensures forall p :: multiset(PaidPayments(ps))[p] == if p.status == "paid" then multiset(ps)[p] else 0
  {
    if ps != [] {
      PaidPaymentsSpec(ps[1..]);
      var head := if ps[0].status == "paid" then [ps[0]] else [];
      var rest := PaidPayments(ps[1..]);
      assert PaidPayments(ps) == head + rest;
      assert ps == [ps[0]] + ps[1..];
      assert multiset(ps) == multiset{ps[0]} + multiset(ps[1..]);
      assert multiset(head + rest) == multiset(head) + multiset(rest);
      if head != [] {
        assert (head + rest)[0] == ps[0] && (head + rest)[1..] == rest;
      } else {
        assert head + rest == rest;
      }
    }
  }

  /** The on-time test: the payment has a `due_date` attribute and was made no later than it. */
  predicate OnTime(p: Payment) {
    p.dueDate.Some? && p.paymentDate <= p.dueDate.value
  }

  /** Payments as the store returns them: none has a `due_date` attribute. */
  predicate NoDueDates(ps: seq<Payment>) {
    forall i :: 0 <= i < |ps| ==> ps[i].dueDate.None?
  }

  function CountOnTime(ps: seq<Payment>): (n: nat)
    ensures n <= |ps|
  {
    if ps == [] then 0 else CountOnTime(ps[..|ps| - 1]) + (if OnTime(ps[|ps| - 1]) then 1 else 0)
  }

  /** `int(25 * paid / total + 15 * on_time / paid)`, computed exactly, the on-time ratio being 0
      when nothing is paid. */
  function RatioScore(total: nat, paid: nat, onTime: nat): int {
    if total == 0 || paid == 0 then 0
    else (PaymentWeight * paid * paid + OnTimeWeight * onTime * total) / (total * paid)
  }

  function PaymentScore(ps: seq<Payment>): int {
    RatioScore(|ps|, |PaidPayments(ps)|, CountOnTime(PaidPayments(ps)))
  }

  /** `_calculate_payment_score`: the paid payments, then a counting loop over them. */
  method CalculatePaymentScore(ps: seq<Payment>) returns (score: int)
    ensures score == PaymentScore(ps)
    ensures 0 <= score <= PaymentWeight + OnTimeWeight
    ensures NoDueDates(ps) ==> score == StoredPaymentScore(ps) && score <= PaymentWeight
  {
    if |ps| == 0 {
      return 0;
    }
    var paid := PaidPayments(ps);
    var onTime := CountOnTimeLoop(paid);
    RatioScoreBounds(|ps|, |paid|, onTime);
    score := RatioScore(|ps|, |paid|, onTime);
    if NoDueDates(ps) {
      PaymentScoreAsWired(ps);
    }
  }

  /** The loop `sum(1 for p in paid if on_time(p))`. */
  method CountOnTimeLoop(paid: seq<Payment>) returns (onTime: nat)
    ensures onTime == CountOnTime(paid)
    ensures NoDueDates(paid) ==> onTime == 0
  {
    onTime := 0;
    var i := 0;
    while i < |paid|
      invariant 0 <= i <= |paid|
      invariant onTime == CountOnTime(paid[..i])
    {
      if OnTime(paid[i]) {
        onTime := onTime + 1;
      }
      assert paid[..i + 1][..i] == paid[..i];
      i := i + 1;
    }
    assert paid[..|paid|] == paid;
    if NoDueDates(paid) {
      NoDueDateNoneOnTime(paid);
    }
  }

  /** `int(payment_ratio * 25)`: the payment part once the on-time bonus is 0. */
  function StoredPaymentScore(ps: seq<Payment>): int {
    if |ps| == 0 then 0 else (PaymentWeight * |PaidPayments(ps)|) / |ps|
  }

  /** A payment without a due date never counts as on time. */
  lemma {:induction false} NoDueDateNoneOnTime(ps: seq<Payment>)
    requires NoDueDates(ps)
    ensures CountOnTime(ps) == 0
  {
    if ps != [] {
      NoDueDateNoneOnTime(ps[..|ps| - 1]);
    }
  }

  /** As the engine is wired, its payments come from the store and carry no due date: nothing is
      on time, and the payment part is `int(25 * paid / total)`, at most 25 instead of 40. */
  lemma PaymentScoreAsWired(ps: seq<Payment>)
    requires NoDueDates(ps)
    ensures CountOnTime(PaidPayments(ps)) == 0
    ensures PaymentScore(ps) == StoredPaymentScore(ps)
    ensures 0 <= PaymentScore(ps) <= PaymentWeight
  {
    var paid := PaidPayments(ps);
    forall i | 0 <= i < |paid| ensures paid[i].dueDate.None? {
      assert paid[i] in ps;
    }
    NoDueDateNoneOnTime(paid);
    RatioScoreNoOnTime(|ps|, |paid|);
  }

  /** With nothing on time, the ratio score is `int(25 * paid / total)`, within 0..25. */
  lemma RatioScoreNoOnTime(total: nat, paid: nat)
    requires paid <= total
    ensures RatioScore(total, paid, 0) == (if total == 0 then 0 else (PaymentWeight * paid) / total)
    ensures 0 <= RatioScore(total, paid, 0) <= PaymentWeight
  {
    if total > 0 && paid > 0 {
      DivCancelFactor(PaymentWeight * paid, total, paid);
      assert PaymentWeight * paid * paid + OnTimeWeight * 0 * total == (PaymentWeight * paid) * paid;
      MulMonotone(PaymentWeight, paid, total);
      FloorBounds(PaymentWeight * paid, total, PaymentWeight);
    }
  }

  /** `(a * p) / (t * p) == a / t` for positive `t` and `p`. */
  lemma DivCancelFactor(a: int, t: int, p: int)
    requires a >= 0 && t > 0 && p > 0
    ensures (a * p) / (t * p) == a / t
  {
    var q, r := a / t, a % t;
    assert a == q * t + r && 0 <= r < t;
    assert a * p == q * (t * p) + r * p;
    MulMonotone(p, r, t - 1);
    MulNonNegative(r, p);
    assert t * p > 0 by { MulMonotone(t, 1, p); }
    DivUnique(a * p, t * p, q, r * p);
  }

  /** Euclidean division has one quotient: `n == q * d + r` with `0 <= r < d` means `n / d == q`. */
  lemma DivUnique(n: int, d: int, q: int, r: int)
    requires d > 0 && n == q * d + r && 0 <= r < d
    ensures n / d == q
  {
    var q', r' := n / d, n % d;
    assert n == q' * d + r' && 0 <= r' < d;
    if q' < q {
      MulMonotone(d, q' + 1, q);
    } else if q' > q {
      MulMonotone(d, q + 1, q');
    }
  }

  /** A fraction `n / d` with `0 <= n <= k * d` floors to a value in 0..k. */
  lemma FloorBounds(n: int, d: int, k: int)
    requires d > 0 && 0 <= n <= k * d
    ensures 0 <= n / d <= k
  {
    var q, r := n / d, n % d;
    assert n == q * d + r && 0 <= r < d;
    if q > k {
      MulMonotone(d, k + 1, q);
    }
    if q < 0 {
      MulMonotone(d, q, -1);
    }
  }

  lemma MulMonotone(k: int, a: int, b: int)
    requires k >= 0 && a <= b
    ensures k * a <= k * b
  {
    assert k * b - k * a == k * (b - a);
    MulNonNegative(k, b - a);
  }

  lemma MulNonNegative(a: int, b: int)
    requires a >= 0 && b >= 0
    ensures a * b >= 0
  {
  }

  /** The payment part lies in 0..40 whenever no more payments are on time than paid and no
      more are paid than exist. */
  lemma RatioScoreBounds(total: nat, paid: nat, onTime: nat)
    requires onTime <= paid <= total
    ensures 0 <= RatioScore(total, paid, onTime) <= PaymentWeight + OnTimeWeight
  {
    if total > 0 && paid > 0 {
      var d := total * paid;
      MulMonotone(PaymentWeight * paid, paid, total);
      MulMonotone(OnTimeWeight * total, onTime, paid);
      assert PaymentWeight * paid * total + OnTimeWeight * total * paid == (PaymentWeight + OnTimeWeight) * d;
      MulNonNegative(PaymentWeight * paid, paid);
      MulNonNegative(OnTimeWeight * onTime, total);
      assert d > 0 by { MulMonotone(total, 1, paid); }
      FloorBounds(PaymentWeight * paid * paid + OnTimeWeight * onTime * total, d, PaymentWeight + OnTimeWeight);
    }
  }

  /** The payment part lies in 0..40. */
  lemma PaymentScoreBounds(ps: seq<Payment>)
    ensures 0 <= PaymentScore(ps) <= PaymentWeight + OnTimeWeight
  {
    RatioScoreBounds(|ps|, |PaidPayments(ps)|, CountOnTime(PaidPayments(ps)));
  }

  /** Everything paid and on time earns the full 40; nothing paid earns 0. */
  lemma RatioScoreExtremes(total: nat, paid: nat, onTime: nat)
    ensures total > 0 && paid == total && onTime == total ==> RatioScore(total, paid, onTime) == PaymentWeight + OnTimeWeight
    ensures paid == 0 ==> RatioScore(total, paid, onTime) == 0
  {
    if total > 0 && paid == total && onTime == total {
      var d := total * total;
      assert d > 0 by { MulMonotone(total, 1, total); }
      calc {
        RatioScore(total, paid, onTime);
        (PaymentWeight * total * total + OnTimeWeight * total * total) / d;
        { assert PaymentWeight * total * total + OnTimeWeight * total * total == (PaymentWeight + OnTimeWeight) * d; }
        ((PaymentWeight + OnTimeWeight) * d) / d;
        { DivUnique((PaymentWeight + OnTimeWeight) * d, d, PaymentWeight + OnTimeWeight, 0); }
        PaymentWeight + OnTimeWeight;
      }
    }
  }

  /** The on-time count is 0 exactly when no payment is on time, and the whole list exactly when
      every payment is. */
  lemma {:induction false} CountOnTimeExtremes(ps: seq<Payment>)
    ensures CountOnTime(ps) == 0 <==> forall i :: 0 <= i < |ps| ==> !OnTime(ps[i])
    ensures CountOnTime(ps) == |ps| <==> forall i :: 0 <= i < |ps| ==> OnTime(ps[i])
  {
    if ps != [] {
      var init := ps[..|ps| - 1];
      CountOnTimeExtremes(init);
      assert forall i :: 0 <= i < |init| ==> init[i] == ps[i];
    }
  }

  // ---------------------------------------------------------------- completion part

  function CountStatus(cs: seq<Committee>, status: string): (n: nat)
    ensures n <= |cs|
  {
    if cs == [] then 0 else (if cs[0].status == status then 1 else 0) + CountStatus(cs[1..], status)
  }

  /** `int(20 * completed / total + min(10, 2 * active))`. */
  function CompletionScore(cs: seq<Committee>): int {
    if |cs| == 0 then 0
    else (CompletionWeight * CountStatus(cs, "completed")) / |cs| + Min(ActiveBonusCap, 2 * CountStatus(cs, "active"))
  }

  /** The completion part lies in 0..30. */
  lemma CompletionScoreBounds(cs: seq<Committee>)
    ensures 0 <= CompletionScore(cs) <= CompletionWeight + ActiveBonusCap
  {
    if |cs| > 0 {
      FloorBounds(CompletionWeight * CountStatus(cs, "completed"), |cs|, CompletionWeight);
    }
  }

  // ---------------------------------------------------------------- tenure part

  /** Python's `int(x / 30)`: division truncating toward zero. */
  function TruncDiv30(days: int): int {
    if days >= 0 then days / DaysPerMonth else -((-days) / DaysPerMonth)
  }

  /** `_calculate_tenure_score`: 0 without an account date, else `min(20, int(age_days / 30))`. */
  function TenureScore(ageDays: Option<int>): int {
    match ageDays
    case None => 0
    case Some(d) => Min(TenureCap, TruncDiv30(d))
  }

  lemma TenureScoreBounds(ageDays: Option<int>)
    ensures TenureScore(ageDays) <= TenureCap
    ensures (ageDays.None? || ageDays.value >= 0) ==> TenureScore(ageDays) >= 0
    ensures ageDays.Some? && 0 <= ageDays.value ==> TenureScore(ageDays) == Min(TenureCap, ageDays.value / DaysPerMonth)
  {
  }

  // ---------------------------------------------------------------- the score

  /** `calculate_trust_score` for a user with these payments, committees and account age. */
  function TrustScoreOf(ps: seq<Payment>, cs: seq<Committee>, ageDays: Option<int>): int {
    if |ps| == 0 && |cs| == 0 then DefaultTrustScore
    else Clamp(BaseScore + PaymentScore(ps) + CompletionScore(cs) + TenureScore(ageDays))
  }

  method CalculateTrustScore(ps: seq<Payment>, cs: seq<Committee>, ageDays: Option<int>) returns (score: int)
    ensures score == TrustScoreOf(ps, cs, ageDays)
    ensures TrustScoreInRange(score)
    ensures NoDueDates(ps) && (|ps| > 0 || |cs| > 0) ==>
      score == Clamp(BaseScore + StoredPaymentScore(ps) + CompletionScore(cs) + TenureScore(ageDays))
  {
    if |ps| == 0 && |cs| == 0 {
      return DefaultTrustScore;
    }
    var payment := CalculatePaymentScore(ps);
    score := Clamp(BaseScore + payment + CompletionScore(cs) + TenureScore(ageDays));
  }

  /** The score is always in 0..100; a newcomer scores exactly 85; with a non-negative account
      age nobody with history scores below the base of 50. */
  lemma TrustScoreRange(ps: seq<Payment>, cs: seq<Committee>, ageDays: Option<int>)
    ensures TrustScoreInRange(TrustScoreOf(ps, cs, ageDays))
    ensures |ps| == 0 && |cs| == 0 ==> TrustScoreOf(ps, cs, ageDays) == DefaultTrustScore
    ensures (ageDays.None? || ageDays.value >= 0) ==> TrustScoreOf(ps, cs, ageDays) >= BaseScore
  {
    PaymentScoreBounds(ps);
    CompletionScoreBounds(cs);
    TenureScoreBounds(ageDays);
  }

  /** The bonus the store's payments never earn: one paid payment and nothing else scores 75 as
      wired, and would score 90 if the payment carried the due date it was paid by. */
  lemma OnTimeBonusNeverAwarded(p: Payment)
    requires p.status == "paid" && p.dueDate.None?
    ensures TrustScoreOf([p], [], None) == 75
    ensures TrustScoreOf([p.(dueDate := Some(p.paymentDate))], [], None) == 90
  {
    var q := p.(dueDate := Some(p.paymentDate));
    assert PaidPayments([p]) == [p];
    assert PaidPayments([q]) == [q];
    assert CountOnTime([q]) == 1 by {
      assert [q][..0] == [];
    }
  }

  /** `get_current_trust_score`: the stored score when the record exposes one, else 85. */
  function CurrentTrustScore(stored: Option<int>): int {
    stored.GetOr(DefaultTrustScore)
  }

  /** `update_trust_score`: the recomputed score, and whether the change is logged. */
  method UpdateTrustScore(stored: Option<int>, ps: seq<Payment>, cs: seq<Committee>, ageDays: Option<int>)
    returns (newScore: int, logged: bool)
    ensures newScore == TrustScoreOf(ps, cs, ageDays)
    ensures NoDueDates(ps) && (|ps| > 0 || |cs| > 0) ==>
      newScore == Clamp(BaseScore + StoredPaymentScore(ps) + CompletionScore(cs) + TenureScore(ageDays))
    ensures logged <==> newScore != CurrentTrustScore(stored)
    ensures logged <==> (newScore - CurrentTrustScore(stored) >= 1 || CurrentTrustScore(stored) - newScore >= 1)
  {
    var oldScore := CurrentTrustScore(stored);
    newScore := CalculateTrustScore(ps, cs, ageDays);
    var diff := if newScore >= oldScore then newScore - oldScore else oldScore - newScore;
    logged := diff >= 1;
  }

  // ---------------------------------------------------------------- levels

  datatype TrustLevel = Excellent | VeryGood | Good | Fair | NeedsImprovement

  /** The bands of `get_trust_level_description`. */
  function LevelOf(score: int): TrustLevel {
    if score >= 95 then Excellent
    else if score >= 85 then VeryGood
    else if score >= 75 then Good
    else if score >= 60 then Fair
    else NeedsImprovement
  }

  /** The lower bound of each band. */
  function LevelFloor(l: TrustLevel): int {
    match l
    case Excellent => 95
    case VeryGood => 85
    case Good => 75
    case Fair => 60
    case NeedsImprovement => MinTrustScore
  }

  function LevelRank(l: TrustLevel): nat {
    match l
    case NeedsImprovement => 0
    case Fair => 1
    case Good => 2
    case VeryGood => 3
    case Excellent => 4
  }

  /** The bands are ordered: a higher score never lands in a lower band, and a score in 0..100
      is in band `l` exactly when it reaches `l`'s floor and not the next band's. */
  lemma LevelMonotone(s1: int, s2: int)
    requires s1 <= s2
    ensures LevelRank(LevelOf(s1)) <= LevelRank(LevelOf(s2))
  {
  }

  lemma LevelFloorReached(score: int)
    requires TrustScoreInRange(score)
    ensures score >= LevelFloor(LevelOf(score))
    ensures forall l: TrustLevel :: LevelRank(l) > LevelRank(LevelOf(score)) ==> score < LevelFloor(l)
  {
  }

  const ExcellentName := "Excellent"
  const VeryGoodName := "Very Good"
  const GoodName := "Good"
  const FairName := "Fair"
  const NeedsImprovementName := "Needs Improvement"

  datatype LevelDescription = LevelDescription(level: string, description: string, benefits: string, color: string)

  /** The name each band is shown under. */
  function LevelName(l: TrustLevel): string {
    match l
    case Excellent => ExcellentName
    case VeryGood => VeryGoodName
    case Good => GoodName
    case Fair => FairName
    case NeedsImprovement => NeedsImprovementName
  }

  function DescriptionOf(l: TrustLevel): LevelDescription {
    match l
    case Excellent => LevelDescription(LevelName(l), "Outstanding payment history and committee participation",
                                       "Access to premium committees, lower fees, priority support", "#228B22")
    case VeryGood => LevelDescription(LevelName(l), "Reliable member with consistent payments",
                                      "Access to most committees, good rates", "#32CD32")
    case Good => LevelDescription(LevelName(l), "Generally reliable with occasional delays",
                                  "Access to standard committees", "#FFD700")
    case Fair => LevelDescription(LevelName(l), "Some payment issues, room for improvement",
                                  "Limited committee access, higher fees", "#FFA500")
    case NeedsImprovement => LevelDescription(LevelName(l), "Significant payment issues requiring attention",
                                              "Restricted access, mandatory monitoring", "#DC143C")
  }

  /** `get_trust_level_description`. */
  function GetTrustLevelDescription(score: int): LevelDescription {
    DescriptionOf(LevelOf(score))
  }

  /** Reads a band back from its name. */
  function ParseLevel(name: string): Option<TrustLevel> {
    if name == ExcellentName then Some(Excellent)
    else if name == VeryGoodName then Some(VeryGood)
    else if name == GoodName then Some(Good)
    else if name == FairName then Some(Fair)
    else if name == NeedsImprovementName then Some(NeedsImprovement)
    else None
  }

  /** Each band's name reads back as that band. */
  lemma NameParsesBack(l: TrustLevel)
    ensures ParseLevel(LevelName(l)) == Some(l)
  {
    match l
    case Excellent =>
    case VeryGood =>
      assert VeryGoodName[0] != ExcellentName[0];
    case Good =>
      assert |GoodName| != |ExcellentName| && |GoodName| != |VeryGoodName|;
    case Fair =>
      assert |FairName| != |ExcellentName| && |FairName| != |VeryGoodName| && FairName[0] != GoodName[0];
    case NeedsImprovement =>
      assert |NeedsImprovementName| == 17;
      assert |ExcellentName| == |VeryGoodName| == 9 && |GoodName| == |FairName| == 4;
  }

  /** The description names its band unambiguously: the name parses back to the band. */
  lemma DescriptionNamesBand(score: int)
    ensures ParseLevel(GetTrustLevelDescription(score).level) == Some(LevelOf(score))
  {
    var l := LevelOf(score);
    assert DescriptionOf(l).level == LevelName(l);
    NameParsesBack(l);
  }

  // ---------------------------------------------------------------- recommendations

  const OnTimeTip := "Make all payments on time to improve payment consistency"
  const CompleteTip := "Complete current committee commitments to boost completion rate"
  const SmallerTip := "Consider joining smaller committees to build trust gradually"
  const ResolveTip := "Focus on resolving any outstanding payment issues"
  const CommunicateTip := "Communicate with committee admins about any payment difficulties"
  const MaintainTip := "Maintain your excellent payment record"

  /** The list `get_improvement_recommendations` builds for a score. */
  function Recommendations(score: int): seq<string> {
    (if score < 85 then [OnTimeTip] else [])
    + (if score < 75 then [CompleteTip, SmallerTip] else [])
    + (if score < 60 then [ResolveTip, CommunicateTip] else [])
    + (if score >= 85 then [MaintainTip] else [])
  }

  /** The list is never empty: one item from 75 up, three in 60..74, five below 60; the
      encouragement appears exactly from 85 up. */
  lemma RecommendationsShape(score: int)
    ensures |Recommendations(score)| >= 1
    ensures score >= 75 ==> |Recommendations(score)| == 1
    ensures 60 <= score < 75 ==> |Recommendations(score)| == 3
    ensures score < 60 ==> |Recommendations(score)| == 5
    ensures MaintainTip in Recommendations(score) <==> score >= 85
    ensures OnTimeTip in Recommendations(score) <==> score < 85
  {
  }

  /** As written, the stored score is never seen, so every user is told only to keep it up. */
  lemma RecommendationsAsWritten()
    ensures Recommendations(CurrentTrustScore(None)) == [MaintainTip]
  {
  }
}
