/**
 * The data model: the enumerations, the records the store keeps, and the CHECK and
 * UNIQUE constraints of the relational schema, stated as predicates. Identifiers are
 * opaque naturals, timestamps are integer day numbers, and the fields the in-memory
 * store keeps as free strings (committee type, frequency, status, role) stay strings,
 * because nothing on that path checks them; the predicates below say when a record
 * would pass the schema.
 */
module Models {
  import opened Wrappers

  type Id = nat

  // ---------------------------------------------------------------- enumerations

  datatype UserRole = Member | Admin

  function UserRoleValue(r: UserRole): string {
    match r
    case Member => "member"
    case Admin => "admin"
  }

  function ParseUserRole(s: string): (r: Option<UserRole>)
    ensures r.Some? <==> (s == "member" || s == "admin")
    ensures r.Some? ==> UserRoleValue(r.value) == s
  {
    if s == "member" then Some(Member) else if s == "admin" then Some(Admin) else None
  }

  datatype CommitteeType = Public | Private

  function CommitteeTypeValue(t: CommitteeType): string {
    match t
    case Public => "public"
    case Private => "private"
  }

  function ParseCommitteeType(s: string): (r: Option<CommitteeType>)
    ensures r.Some? <==> (s == "public" || s == "private")
    ensures r.Some? ==> CommitteeTypeValue(r.value) == s
  {
    if s == "public" then Some(Public) else if s == "private" then Some(Private) else None
  }

  datatype PaymentFrequency = Monthly | BiMonthly

  function PaymentFrequencyValue(f: PaymentFrequency): string {
    match f
    case Monthly => "monthly"
    case BiMonthly => "bi_monthly"
  }

  function ParsePaymentFrequency(s: string): (r: Option<PaymentFrequency>)
    ensures r.Some? <==> (s == "monthly" || s == "bi_monthly")
    ensures r.Some? ==> PaymentFrequencyValue(r.value) == s
  {
    if s == "monthly" then Some(Monthly) else if s == "bi_monthly" then Some(BiMonthly) else None
  }

  datatype PaymentStatus = Pending | Paid | Failed | Refunded

  function PaymentStatusValue(p: PaymentStatus): string {
    match p
    case Pending => "pending"
    case Paid => "paid"
    case Failed => "failed"
    case Refunded => "refunded"
  }

  function ParsePaymentStatus(s: string): (r: Option<PaymentStatus>)
    ensures r.Some? <==> (s == "pending" || s == "paid" || s == "failed" || s == "refunded")
    ensures r.Some? ==> PaymentStatusValue(r.value) == s
  {
    if s == "pending" then Some(Pending)
    else if s == "paid" then Some(Paid)
    else if s == "failed" then Some(Failed)
    else if s == "refunded" then Some(Refunded)
    else None
  }

  datatype CommitteeStatus = Active | Paused | Completed | Cancelled

  function CommitteeStatusValue(c: CommitteeStatus): string {
    match c
    case Active => "active"
    case Paused => "paused"
    case Completed => "completed"
    case Cancelled => "cancelled"
  }

  function ParseCommitteeStatus(s: string): (r: Option<CommitteeStatus>)
    ensures r.Some? <==> (s == "active" || s == "paused" || s == "completed" || s == "cancelled")
    ensures r.Some? ==> CommitteeStatusValue(r.value) == s
  {
    if s == "active" then Some(Active)
    else if s == "paused" then Some(Paused)
    else if s == "completed" then Some(Completed)
    else if s == "cancelled" then Some(Cancelled)
    else None
  }

  /** Every enumeration value is read back from its stored string. */
  lemma EnumRoundTrips(r: UserRole, t: CommitteeType, f: PaymentFrequency, p: PaymentStatus, c: CommitteeStatus)
    ensures ParseUserRole(UserRoleValue(r)) == Some(r)
    ensures ParseCommitteeType(CommitteeTypeValue(t)) == Some(t)
    ensures ParsePaymentFrequency(PaymentFrequencyValue(f)) == Some(f)
    ensures ParsePaymentStatus(PaymentStatusValue(p)) == Some(p)
    ensures ParseCommitteeStatus(CommitteeStatusValue(c)) == Some(c)
  {
  }

  // ---------------------------------------------------------------- records

  const DefaultTrustScore: int := 85
  const MinTrustScore: int := 0
  const MaxTrustScore: int := 100

  datatype User = User(
    id: Id,
    username: string,
    passwordHash: string,
    fullName: string,
    email: string,
    phone: string,
    role: string,
    cnic: Option<string>,
    trustScore: int,
    createdDate: int)

  datatype Committee = Committee(
    id: Id,
    title: string,
    description: Option<string>,
    monthlyAmount: int,
    totalMembers: int,
    currentMembers: int,
    duration: int,
    committeeType: string,
    category: string,
    paymentFrequency: string,
    status: string,
    adminId: Id,
    createdDate: int)

  datatype CommitteeMember = CommitteeMember(
    id: Id,
    committeeId: Id,
    userId: Id,
    position: int,
    joinedDate: int)

  /**
   * A payment as `get_user_payment_history` builds it: the `Payment` record of db_manager.py:39-48,
   * one per row of the payments table. That record has no `due_date` attribute, so `dueDate` is
   * None for every stored payment. `Some` stands for an object that does carry one, which the
   * `hasattr` probe of the trust engine would then read; the `Payment` dataclass of models.py
   * declares such a field, but nothing builds one.
   */
  datatype Payment = Payment(
    id: Id,
    committeeId: Id,
    userId: Id,
    amount: int,
    paymentDate: int,
    status: string,
    transactionId: Option<string>,
    paymentMethod: string,
    dueDate: Option<int>)

  /**
   * A committee built with the dataclass defaults: no members yet, twelve months,
   * public, category "General", monthly, active.
   */
  function CommitteeWithDefaults(id: Id, title: string, description: Option<string>,
                                 monthlyAmount: int, totalMembers: int, adminId: Id, createdDate: int): Committee
  {
    Committee(id, title, description, monthlyAmount, totalMembers, 0, 12,
              CommitteeTypeValue(Public), "General", PaymentFrequencyValue(Monthly),
              CommitteeStatusValue(Active), adminId, createdDate)
  }

  // ---------------------------------------------------------------- schema constraints

  /** CHECK (trust_score >= 0 AND trust_score <= 100) of the users table. */
  predicate TrustScoreInRange(score: int) { MinTrustScore <= score <= MaxTrustScore }

  /** CHECK constraints of the committees table. */
  predicate CommitteeRowOk(c: Committee) {
    && c.monthlyAmount > 0
    && c.totalMembers >= 2
    && c.currentMembers >= 0
    && c.duration >= 1
    && ParseCommitteeType(c.committeeType).Some?
    && ParsePaymentFrequency(c.paymentFrequency).Some?
    && ParseCommitteeStatus(c.status).Some?
  }

  /** CHECK constraints of the payments table. */
  predicate PaymentRowOk(p: Payment) { p.amount > 0 && ParsePaymentStatus(p.status).Some? }

  /** UNIQUE(committee_id, user_id) and UNIQUE(committee_id, position) of committee_members,
      over the memberships keyed by id. */
  predicate MembershipsUnique(ms: map<Id, CommitteeMember>) {
    forall a, b :: a in ms && b in ms && a != b && ms[a].committeeId == ms[b].committeeId ==>
      ms[a].userId != ms[b].userId && ms[a].position != ms[b].position
  }

  /** A committee created with the defaults passes the committees CHECKs exactly when its
      amount is positive and it is sized for at least two members. */
  lemma DefaultsPassSchema(id: Id, title: string, description: Option<string>,
                           monthlyAmount: int, totalMembers: int, adminId: Id, createdDate: int)
    ensures CommitteeRowOk(CommitteeWithDefaults(id, title, description, monthlyAmount, totalMembers, adminId, createdDate))
            <==> monthlyAmount > 0 && totalMembers >= 2
    ensures CommitteeWithDefaults(id, title, description, monthlyAmount, totalMembers, adminId, createdDate).currentMembers == 0
  {
  }
}
