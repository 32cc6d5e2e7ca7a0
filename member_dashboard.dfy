/**
 * The arithmetic behind the member dashboard: trust bands, colours and benefits, the offset of
 * a member's payout from today, the payout queue, and the "points to the next level" hint.
 */
module MemberDashboard {
  import opened Wrappers
  import opened Models
  import TrustScore
  import PaymentManager

  // ---------------------------------------------------------------- bands

  function GetTrustLevel(score: int): string {
    if score >= 95 then "Excellent"
    else if score >= 85 then "Very Good"
    else if score >= 75 then "Good"
    else if score >= 60 then "Fair"
    else "Poor"
  }

  function GetTrustColor(score: int): string {
    if score >= 95 then "#228B22"
    else if score >= 85 then "#32CD32"
    else if score >= 75 then "#FFD700"
    else if score >= 60 then "#FFA500"
    else "#DC143C"
  }

  /** The dashboard names the same five bands as the trust engine, calling the lowest "Poor"
      instead of "Needs Improvement". */
  lemma TrustLevelAgreesWithEngine(score: int)
    ensures GetTrustLevel(score) ==
      match TrustScore.LevelOf(score)
      case Excellent => "Excellent"
      case VeryGood => "Very Good"
      case Good => "Good"
      case Fair => "Fair"
      case NeedsImprovement => "Poor"
  {
  }

  /** Colour and level change at the same thresholds: two scores share a colour exactly when
      they share a level. */
  lemma ColorFollowsLevel(a: int, b: int)
    ensures GetTrustColor(a) == GetTrustColor(b) <==> GetTrustLevel(a) == GetTrustLevel(b)
  {
  }

  function GetTrustBenefits(score: int): seq<string> {
    if score >= 95 then
      ["Create private committees", "Priority payout processing", "50% reduced fees",
       "Exclusive investment opportunities", "Higher committee limits (Rs. 100k+)"]
    else if score >= 85 then
      ["Create private committees", "Priority support", "30% reduced fees",
       "Special promotions", "Committee limits up to Rs. 75k"]
    else if score >= 75 then
      ["Standard committee access", "Regular support", "Committee limits up to Rs. 50k"]
    else
      ["Basic committee access", "Limited committee amounts", "Standard processing times"]
  }

  /** Five benefits from 85 up, three below; private committees are offered exactly from 85 up;
      the Fair band (60-74) gets the same list as Poor. */
  lemma TrustBenefitsShape(score: int, other: int)
    ensures |GetTrustBenefits(score)| == (if score >= 85 then 5 else 3)
    ensures "Create private committees" in GetTrustBenefits(score) <==> score >= 85
    ensures score < 75 && other < 75 ==> GetTrustBenefits(score) == GetTrustBenefits(other)
    ensures score >= 75 && other >= 75 ==> (GetTrustBenefits(score) == GetTrustBenefits(other) <==> GetTrustColor(score) == GetTrustColor(other))
  {
  }

  // ---------------------------------------------------------------- payout offsets

  /** Days from today until the member at `position` is paid out. */
  function DaysToPayout(position: int, frequency: string): int {
    (position - 1) * (if frequency == PaymentFrequencyValue(BiMonthly) then 60 else 30)
  }

  /** The offset is the payment interval times the places ahead in the queue, zero for the first
      member; it matches the payout schedule computed from the ordered member list. */
  lemma DaysToPayoutSpec(members: seq<Id>, start: int, frequency: string, position: int)
    ensures DaysToPayout(position, frequency) == PaymentManager.IntervalDays(frequency) * (position - 1)
    ensures DaysToPayout(1, frequency) == 0
    ensures 1 <= position <= |members| ==>
      PaymentManager.PayoutScheduleOf(members, start, frequency)[position - 1].payoutDate == start + DaysToPayout(position, frequency)
  {
  }

  /** Everyone is paid the whole monthly pot. */
  function MonthlyPool(c: Committee): int { c.monthlyAmount * c.currentMembers }

  datatype QueueEntry = QueueEntry(position: int, amount: int, isCurrentUser: bool)

  method PayoutQueue(c: Committee, memberPosition: int) returns (queue: seq<QueueEntry>)
    ensures |queue| == if c.currentMembers > 0 then c.currentMembers else 0
    ensures forall i :: 0 <= i < |queue| ==> queue[i].position == i + 1
    ensures forall i :: 0 <= i < |queue| ==> queue[i].amount == MonthlyPool(c)
    ensures forall i :: 0 <= i < |queue| ==> (queue[i].isCurrentUser <==> i + 1 == memberPosition)
  {
    queue := [];
    var pos := 1;
    while pos < c.currentMembers + 1
      invariant 1 <= pos && |queue| == pos - 1
      invariant c.currentMembers > 0 ==> pos <= c.currentMembers + 1
      invariant c.currentMembers <= 0 ==> pos == 1
      invariant forall i :: 0 <= i < |queue| ==> queue[i] == QueueEntry(i + 1, MonthlyPool(c), i + 1 == memberPosition)
    {
      queue := queue + [QueueEntry(pos, c.monthlyAmount * c.currentMembers, pos == memberPosition)];
      pos := pos + 1;
    }
  }

  // ---------------------------------------------------------------- next level

  /** A row of the next-level table: below `threshold + 10` the hint points at `target`. */
  datatype Threshold = Threshold(threshold: int, target: string)
  datatype NextStep = NextStep(points: int, target: string)

  /** The table as written, in dictionary order, highest level first. The first two rows' targets
      match their labels (95, 85); the last two do not (70 for "Good (75+)", 10 for "Fair (60+)"). */
  const NextThresholdsAsWritten: seq<Threshold> :=
    [Threshold(85, "Excellent (95+)"), Threshold(75, "Very Good (85+)"), Threshold(60, "Good (75+)"), Threshold(0, "Fair (60+)")]

  /** The table the labels describe: each band's floor minus 10, lowest band first. */
  const NextThresholds: seq<Threshold> :=
    [Threshold(50, "Fair (60+)"), Threshold(65, "Good (75+)"), Threshold(75, "Very Good (85+)"), Threshold(85, "Excellent (95+)")]

  /** The first row the score is below, as the loop with `break` finds it. */
  function FirstReachable(table: seq<Threshold>, score: int): Option<NextStep> {
    if table == [] then None
    else if score < table[0].threshold + 10 then Some(NextStep(table[0].threshold + 10 - score, table[0].target))
    else FirstReachable(table[1..], score)
  }

  method NextLevelRequirement(table: seq<Threshold>, score: int) returns (step: Option<NextStep>)
    ensures step == FirstReachable(table, score)
    ensures step.Some? ==> step.value.points > 0
    ensures step.None? <==> forall i :: 0 <= i < |table| ==> score >= table[i].threshold + 10
  {
    step := None;
    var i := 0;
    while i < |table|
      invariant 0 <= i <= |table|
      invariant FirstReachable(table, score) == FirstReachable(table[i..], score)
      invariant forall j :: 0 <= j < i ==> score >= table[j].threshold + 10
    {
      assert table[i..][1..] == table[i + 1..];
      if score < table[i].threshold + 10 {
        step := Some(NextStep(table[i].threshold + 10 - score, table[i].target));
        return;
      }
      i := i + 1;
    }
  }

  /** As written, every score below 95 is told how far it is from Excellent, even when a closer
      band lies in between. */
  lemma NextLevelAlwaysExcellent(score: int)
    requires score < 95
    ensures FirstReachable(NextThresholdsAsWritten, score) == Some(NextStep(95 - score, "Excellent (95+)"))
  {
  }

  /** A score of 50 is Poor; the next band is Fair at 60, yet the hint asks for 45 points. */
  lemma NextLevelSkipsBands()
    ensures GetTrustLevel(50) == "Poor" && GetTrustLevel(60) == "Fair"
    ensures FirstReachable(NextThresholdsAsWritten, 50) == Some(NextStep(45, "Excellent (95+)"))
  {
  }

  /** The corrected table, row by row: the next band floor above the score. */
  lemma NextThresholdsRows(score: int)
    ensures FirstReachable(NextThresholds, score) ==
      if score < 60 then Some(NextStep(60 - score, "Fair (60+)"))
      else if score < 75 then Some(NextStep(75 - score, "Good (75+)"))
      else if score < 85 then Some(NextStep(85 - score, "Very Good (85+)"))
      else if score < 95 then Some(NextStep(95 - score, "Excellent (95+)"))
      else None
  {
    var t := NextThresholds;
    var t1, t2, t3 := t[1..], t[1..][1..], t[1..][1..][1..];
    assert t1 == [Threshold(65, "Good (75+)"), Threshold(75, "Very Good (85+)"), Threshold(85, "Excellent (95+)")];
    assert t2 == [Threshold(75, "Very Good (85+)"), Threshold(85, "Excellent (95+)")];
    assert t3 == [Threshold(85, "Excellent (95+)")] && t3[1..] == [];
    if score >= 60 {
      assert FirstReachable(t, score) == FirstReachable(t1, score);
      if score >= 75 {
        assert FirstReachable(t1, score) == FirstReachable(t2, score);
        if score >= 85 {
          assert FirstReachable(t2, score) == FirstReachable(t3, score);
        }
      }
    }
  }

  /** With the corrected table the hint names the next band up: the level holds for fewer points
      and changes to the named band at exactly `points` more; from 95 no hint is shown. */
  lemma NextLevelSpec(score: int)
    ensures FirstReachable(NextThresholds, score).None? <==> score >= 95
    ensures FirstReachable(NextThresholds, score).Some? ==>
      var step := FirstReachable(NextThresholds, score).value;
      && step.points > 0
      && (forall s :: score <= s < score + step.points ==> GetTrustLevel(s) == GetTrustLevel(score))
      && GetTrustLevel(score + step.points) != GetTrustLevel(score)
      && step.target == GetTrustLevel(score + step.points) + " (" + Digits2(score + step.points) + "+)"
  {
    NextThresholdsRows(score);
    if score < 60 {
      assert GetTrustLevel(score) == "Poor" && GetTrustLevel(60) == "Fair" && "Poor"[0] != "Fair"[0];
      assert Digits2(60) == "60";
    } else if score < 75 {
      assert GetTrustLevel(score) == "Fair" && GetTrustLevel(75) == "Good" && "Fair"[0] != "Good"[0];
      assert Digits2(75) == "75";
    } else if score < 85 {
      assert GetTrustLevel(score) == "Good" && GetTrustLevel(85) == "Very Good" && |"Good"| != |"Very Good"|;
      assert Digits2(85) == "85";
    } else if score < 95 {
      assert GetTrustLevel(score) == "Very Good" && GetTrustLevel(95) == "Excellent" && "Very Good"[0] != "Excellent"[0];
      assert Digits2(95) == "95";
    }
  }

  /** The two-digit decimal form of a band floor. */
  function Digits2(n: int): string {
    if 10 <= n <= 99 then [(('0' as int) + n / 10) as char, (('0' as int) + n % 10) as char] else ""
  }
}
