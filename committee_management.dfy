/**
 * The committee pages: the browse filters, the browse orderings, and the validation that guards
 * committee creation. Python's `sorted` is stable, also with `reverse=True`; an ordering is
 * modelled as a stable insertion sort on a rank, the rank of a descending ordering being the
 * negated key.
 */
module CommitteeManagement {
  import opened Wrappers
  import opened Models
  import opened Text
  import opened Store
  import opened Sequences

  // ---------------------------------------------------------------- filters

  datatype FilterSettings = FilterSettings(
    minAmount: int, maxAmount: int, category: string, paymentFrequency: string,
    duration: string, availability: string)

  const AllLabel := "All"
  const ShortLabel := "Short (2-6 months)"
  const MediumLabel := "Medium (7-12 months)"
  const LongLabel := "Long (13+ months)"
  const AlmostFullLabel := "Almost Full (90%+)"
  const HalfFullLabel := "Half Full (50-90%)"
  const JustStartedLabel := "Just Started (<50%)"

  predicate DurationMatches(months: int, choice: string) {
    if choice == ShortLabel then 2 <= months <= 6
    else if choice == MediumLabel then 7 <= months <= 12
    else if choice == LongLabel then months >= 13
    else true
  }

  /** The fill-rate bands on current / total, by cross-multiplication (total > 0):
      at least 0.9, from 0.5 up to 0.9, below 0.5. */
  predicate AvailabilityMatches(current: int, total: int, choice: string) {
    if choice == AlmostFullLabel then 10 * current >= 9 * total
    else if choice == HalfFullLabel then 2 * current >= total && 10 * current < 9 * total
    else if choice == JustStartedLabel then 2 * current < total
    else true
  }

  /** A committee survives every check of `apply_committee_filters`. */
  predicate Keep(c: Committee, f: FilterSettings) {
    && f.minAmount <= c.monthlyAmount <= f.maxAmount
    && (f.category == AllLabel || c.category == f.category)
    && (f.paymentFrequency == AllLabel || c.paymentFrequency == f.paymentFrequency)
    && (f.duration == AllLabel || DurationMatches(c.duration, f.duration))
    && (f.availability == AllLabel || AvailabilityMatches(c.currentMembers, c.totalMembers, f.availability))
  }

  function Filtered(cs: seq<Committee>, f: FilterSettings): seq<Committee> {
    if cs == [] then [] else (if Keep(cs[0], f) then [cs[0]] else []) + Filtered(cs[1..], f)
  }

  /** The fill rate divides by the committee's size whenever the availability filter is on. The
      source has no guard and raises ZeroDivisionError for a size of 0; the create form and the
      committees CHECK (total_members >= 2) never produce one, and the model requires it. */
  predicate SizesPositive(cs: seq<Committee>) {
    forall i :: 0 <= i < |cs| ==> cs[i].totalMembers > 0
  }

  method ApplyCommitteeFilters(cs: seq<Committee>, f: FilterSettings) returns (filtered: seq<Committee>)
    requires f.availability != AllLabel ==> SizesPositive(cs)
    ensures filtered == Filtered(cs, f)
  {
    filtered := [];
    var i := 0;
    while i < |cs|
      invariant 0 <= i <= |cs|
      invariant filtered + Filtered(cs[i..], f) == Filtered(cs, f)
    {
      var c := cs[i];
      assert cs[i..] == [c] + cs[i + 1..];
      var skip := c.monthlyAmount < f.minAmount || c.monthlyAmount > f.maxAmount;
      if f.category != AllLabel && c.category != f.category {
        skip := true;
      }
      if f.paymentFrequency != AllLabel && c.paymentFrequency != f.paymentFrequency {
        skip := true;
      }
      if f.duration != AllLabel {
        if f.duration == ShortLabel && !(2 <= c.duration <= 6) {
          skip := true;
        } else if f.duration == MediumLabel && !(7 <= c.duration <= 12) {
          skip := true;
        } else if f.duration == LongLabel && c.duration < 13 {
          skip := true;
        }
      }
      if f.availability != AllLabel {
        // current / total < 0.9, and 0.5 <= current / total, for total > 0
        var belowNinety := 10 * c.currentMembers < 9 * c.totalMembers;
        var atLeastHalf := 2 * c.currentMembers >= c.totalMembers;
        if f.availability == AlmostFullLabel && belowNinety {
          skip := true;
        } else if f.availability == HalfFullLabel && !(atLeastHalf && belowNinety) {
          skip := true;
        } else if f.availability == JustStartedLabel && atLeastHalf {
          skip := true;
        }
      }
      assert skip <==> !Keep(c, f);
      if !skip {
        filtered := filtered + [c];
      }
      i := i + 1;
    }
  }

  /** The filter keeps the input's order and drops exactly the committees that fail a check. */
  lemma {:induction false} FilteredSpec(cs: seq<Committee>, f: FilterSettings)
    ensures IsSubsequence(Filtered(cs, f), cs)
    ensures forall c :: c in Filtered(cs, f) <==> c in cs && Keep(c, f)
  {
    if cs != [] {
      FilteredSpec(cs[1..], f);
      var r := Filtered(cs, f);
      if Keep(cs[0], f) {
        assert r == [cs[0]] + Filtered(cs[1..], f);
        assert r[0] == cs[0] && r[1..] == Filtered(cs[1..], f);
      } else {
        assert r == Filtered(cs[1..], f);
      }
    }
  }

  /** What a kept committee satisfies, per filter: the amount range inclusive, an exact category
      and frequency unless "All", the duration bands 2..6, 7..12 and 13 up, and the fill bands. */
  lemma KeptCommitteeMeaning(c: Committee, f: FilterSettings)
    requires Keep(c, f)
    ensures f.minAmount <= c.monthlyAmount <= f.maxAmount
    ensures f.category != AllLabel ==> c.category == f.category
    ensures f.paymentFrequency != AllLabel ==> c.paymentFrequency == f.paymentFrequency
    ensures f.duration == ShortLabel ==> 2 <= c.duration <= 6
    ensures f.duration == MediumLabel ==> 7 <= c.duration <= 12
    ensures f.duration == LongLabel ==> c.duration >= 13
    ensures f.availability == AlmostFullLabel ==> 10 * c.currentMembers >= 9 * c.totalMembers
    ensures f.availability == HalfFullLabel ==> 5 * c.totalMembers <= 10 * c.currentMembers < 9 * c.totalMembers
    ensures f.availability == JustStartedLabel ==> 2 * c.currentMembers < c.totalMembers
  {
  }

  /** With every filter at its widest, nothing in the amount range is dropped. */
  lemma {:induction false} NoFilterKeepsEverything(cs: seq<Committee>, lo: int, hi: int)
    requires forall i :: 0 <= i < |cs| ==> lo <= cs[i].monthlyAmount <= hi
    ensures Filtered(cs, FilterSettings(lo, hi, AllLabel, AllLabel, AllLabel, AllLabel)) == cs
  {
    if cs != [] {
      NoFilterKeepsEverything(cs[1..], lo, hi);
    }
  }

  // ---------------------------------------------------------------- ordering

  datatype SortKey = NewestFirst | AmountLowToHigh | AmountHighToLow | MostAvailable

  function ParseSortKey(choice: string): Option<SortKey> {
    if choice == "Newest First" then Some(NewestFirst)
    else if choice == "Amount (Low to High)" then Some(AmountLowToHigh)
    else if choice == "Amount (High to Low)" then Some(AmountHighToLow)
    else if choice == "Most Available" then Some(MostAvailable)
    else None
  }

  function OpenSlots(c: Committee): int { c.totalMembers - c.currentMembers }

  /** The position of a committee in ascending order of the sort; descending keys are negated. */
  function Rank(c: Committee, k: SortKey): int {
    match k
    case NewestFirst => -c.createdDate
    case AmountLowToHigh => c.monthlyAmount
    case AmountHighToLow => -c.monthlyAmount
    case MostAvailable => -OpenSlots(c)
  }

  /** Places `c` before the first element that does not rank strictly lower. */
  function Insert(c: Committee, s: seq<Committee>, k: SortKey): seq<Committee> {
    if s == [] || Rank(c, k) <= Rank(s[0], k) then [c] + s else [s[0]] + Insert(c, s[1..], k)
  }

  function StableSort(cs: seq<Committee>, k: SortKey): seq<Committee> {
    if cs == [] then [] else Insert(cs[0], StableSort(cs[1..], k), k)
  }

  /** `sort_committees`: one of the four orderings, or the input itself for an unknown choice. */
  function SortCommittees(cs: seq<Committee>, choice: string): seq<Committee> {
    match ParseSortKey(choice)
    case Some(k) => StableSort(cs, k)
    case None => cs
  }

  predicate SortedByRank(s: seq<Committee>, k: SortKey) {
    forall i, j :: 0 <= i < j < |s| ==> Rank(s[i], k) <= Rank(s[j], k)
  }

  /** The committees of `s` with rank `v`, in their order in `s`. */
  function WithRank(s: seq<Committee>, k: SortKey, v: int): seq<Committee> {
    if s == [] then [] else (if Rank(s[0], k) == v then [s[0]] else []) + WithRank(s[1..], k, v)
  }

  lemma {:induction false} InsertPermutation(c: Committee, s: seq<Committee>, k: SortKey)
    ensures multiset(Insert(c, s, k)) == multiset(s) + multiset{c}
  {
    if s != [] && Rank(c, k) > Rank(s[0], k) {
      InsertPermutation(c, s[1..], k);
      assert s == [s[0]] + s[1..];
    }
  }

  predicate RanksAtLeast(s: seq<Committee>, k: SortKey, v: int) {
    forall i :: 0 <= i < |s| ==> v <= Rank(s[i], k)
  }

  lemma {:induction false} InsertRanksAtLeast(c: Committee, s: seq<Committee>, k: SortKey, v: int)
    requires v <= Rank(c, k) && RanksAtLeast(s, k, v)
    ensures RanksAtLeast(Insert(c, s, k), k, v)
  {
    if s != [] && Rank(c, k) > Rank(s[0], k) {
      InsertRanksAtLeast(c, s[1..], k, v);
    }
  }

  lemma {:induction false} InsertSorted(c: Committee, s: seq<Committee>, k: SortKey)
    requires SortedByRank(s, k)
    ensures SortedByRank(Insert(c, s, k), k)
  {
    if s != [] && Rank(c, k) > Rank(s[0], k) {
      InsertSorted(c, s[1..], k);
      InsertRanksAtLeast(c, s[1..], k, Rank(s[0], k));
      var r := Insert(c, s[1..], k);
      var t := [s[0]] + r;
      forall a, b | 0 <= a < b < |t| ensures Rank(t[a], k) <= Rank(t[b], k) {
        assert t[b] == r[b - 1];
        if a > 0 {
          assert t[a] == r[a - 1];
        }
      }
    }
  }

  lemma {:induction false} InsertWithOwnRank(c: Committee, s: seq<Committee>, k: SortKey)
    ensures WithRank(Insert(c, s, k), k, Rank(c, k)) == [c] + WithRank(s, k, Rank(c, k))
  {
    if s == [] || Rank(c, k) <= Rank(s[0], k) {
      assert ([c] + s)[1..] == s;
    } else {
      InsertWithOwnRank(c, s[1..], k);
      assert ([s[0]] + Insert(c, s[1..], k))[1..] == Insert(c, s[1..], k);
    }
  }

  lemma {:induction false} InsertWithOtherRank(c: Committee, s: seq<Committee>, k: SortKey, v: int)
    requires v != Rank(c, k)
    ensures WithRank(Insert(c, s, k), k, v) == WithRank(s, k, v)
  {
    if s == [] || Rank(c, k) <= Rank(s[0], k) {
      assert ([c] + s)[1..] == s;
    } else {
      InsertWithOtherRank(c, s[1..], k, v);
      assert ([s[0]] + Insert(c, s[1..], k))[1..] == Insert(c, s[1..], k);
    }
  }

  /** Every ordering is a stable sort: ranks ascend, the committees are a permutation of the
      input, and committees of equal rank keep their input order. */
  lemma {:induction false} StableSortSpec(cs: seq<Committee>, k: SortKey)
    ensures SortedByRank(StableSort(cs, k), k)
    ensures multiset(StableSort(cs, k)) == multiset(cs)
    ensures forall v :: WithRank(StableSort(cs, k), k, v) == WithRank(cs, k, v)
  {
    if cs != [] {
      var rest := StableSort(cs[1..], k);
      StableSortSpec(cs[1..], k);
      InsertPermutation(cs[0], rest, k);
      InsertSorted(cs[0], rest, k);
      assert cs == [cs[0]] + cs[1..];
      forall v ensures WithRank(StableSort(cs, k), k, v) == WithRank(cs, k, v) {
        if v == Rank(cs[0], k) {
          InsertWithOwnRank(cs[0], rest, k);
        } else {
          InsertWithOtherRank(cs[0], rest, k, v);
        }
      }
    }
  }

  /** What each choice promises, in the committees' own fields. */
  lemma SortCommitteesSpec(cs: seq<Committee>, choice: string)
    ensures multiset(SortCommittees(cs, choice)) == multiset(cs)
    ensures ParseSortKey(choice).None? ==> SortCommittees(cs, choice) == cs
    ensures var s := SortCommittees(cs, choice);
      && (choice == "Newest First" ==> forall i, j :: 0 <= i < j < |s| ==> s[i].createdDate >= s[j].createdDate)
      && (choice == "Amount (Low to High)" ==> forall i, j :: 0 <= i < j < |s| ==> s[i].monthlyAmount <= s[j].monthlyAmount)
      && (choice == "Amount (High to Low)" ==> forall i, j :: 0 <= i < j < |s| ==> s[i].monthlyAmount >= s[j].monthlyAmount)
      && (choice == "Most Available" ==> forall i, j :: 0 <= i < j < |s| ==> OpenSlots(s[i]) >= OpenSlots(s[j]))
  {
    if ParseSortKey(choice).Some? {
      StableSortSpec(cs, ParseSortKey(choice).value);
    }
  }

  // ---------------------------------------------------------------- creation

  /** The committee types the form offers: admins may also create private committees. */
  function CommitteeTypeOptions(userRole: string): seq<string> {
    if userRole != UserRoleValue(Admin) then [CommitteeTypeValue(Public)]
    else [CommitteeTypeValue(Public), CommitteeTypeValue(Private)]
  }

  datatype CreateFormError = MissingFields | AgreementsMissing | TitleTooShort | AmountTooLow | TooFewMembers

  /** The validation chain of the create form, first failing check first. */
  function ValidateCreateForm(title: string, monthlyAmount: int, totalMembers: int, duration: int,
                              agreements: seq<bool>): Option<CreateFormError>
  {
    if title == "" || monthlyAmount == 0 || totalMembers == 0 || duration == 0 then Some(MissingFields)
    else if exists i :: 0 <= i < |agreements| && !agreements[i] then Some(AgreementsMissing)
    else if |Strip(title)| < 3 then Some(TitleTooShort)
    else if monthlyAmount < 1000 then Some(AmountTooLow)
    else if totalMembers < 2 then Some(TooFewMembers)
    else None
  }

  /** The form is accepted exactly when every field is filled, every agreement is ticked, the
      title has at least three characters beyond its surrounding blanks, the amount is at least
      1000 and there are at least two members. */
  lemma ValidateCreateFormSpec(title: string, monthlyAmount: int, totalMembers: int, duration: int, agreements: seq<bool>)
    ensures ValidateCreateForm(title, monthlyAmount, totalMembers, duration, agreements).None? <==>
      && duration != 0
      && (forall i :: 0 <= i < |agreements| ==> agreements[i])
      && |Strip(title)| >= 3
      && monthlyAmount >= 1000
      && totalMembers >= 2
  {
    if |Strip(title)| >= 3 {
      assert title != "";
    }
  }

  /** `description.strip() if description else None`. */
  function DescriptionArgument(description: string): Option<string> {
    if description == "" then None else Some(Strip(description))
  }

  /** Submitting the create form: on any validation error the store is left alone; otherwise the
      committee is created with the stripped title, always within its capacity. */
  method SubmitCreateCommittee(db: DatabaseManager, userId: Id, userRole: string,
                               title: string, description: string, monthlyAmount: int, totalMembers: int,
                               duration: int, committeeType: string, category: string, paymentFrequency: string,
                               agreements: seq<bool>, now: int) returns (error: Option<CreateFormError>)
    requires db.Valid()
    requires committeeType in CommitteeTypeOptions(userRole)
    modifies db
    ensures db.Valid()
    ensures error == ValidateCreateForm(title, monthlyAmount, totalMembers, duration, agreements)
    ensures error.Some? ==> db.Snapshot() == old(db.Snapshot())
    ensures error.None? ==> db.Snapshot() == CreateCommitteeOutcome(old(db.Snapshot()), Strip(title), DescriptionArgument(description),
                                                                     monthlyAmount, totalMembers, duration, committeeType,
                                                                     category, paymentFrequency, userId, now).tables
    ensures old(WithinCapacity(db.Snapshot())) ==> WithinCapacity(db.Snapshot())
    ensures error.None? && userRole != UserRoleValue(Admin) ==> db.committees[old(db.nextId)].committeeType == CommitteeTypeValue(Public)
  {
    error := ValidateCreateForm(title, monthlyAmount, totalMembers, duration, agreements);
    if error.Some? {
      return;
    }
    ValidateCreateFormSpec(title, monthlyAmount, totalMembers, duration, agreements);
    CreateCommitteeKeepsValid(db.Snapshot(), Strip(title), DescriptionArgument(description), monthlyAmount, totalMembers,
                              duration, committeeType, category, paymentFrequency, userId, now);
    var _ := db.CreateCommittee(Strip(title), DescriptionArgument(description), monthlyAmount, totalMembers,
                                duration, committeeType, category, paymentFrequency, userId, now);
  }
}
