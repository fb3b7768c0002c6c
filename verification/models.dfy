/** The entities of the tracker application and the queries its model
    classes define (tracker/models.py). Timestamps are whole seconds; a
    primary key is the row's position in its append-only table, and a
    foreign key is such a position. */
module Models {

  import opened Base
  import opened Text

  /** A money column (`DecimalField`), kept as an integer count of its
      smallest unit; only its truthiness and its rendering are observed. */
  type Decimal = int

  const SecondsPerDay: int := 86400

  datatype CustomerKind = Individual | Organization

  /** `ServiceRequest.STATUS_CHOICES`. */
  datatype RequestStatus = Pending | Accepted | InProgress | Completed | Cancelled

  /** `WorkshopRegistration.STATUS_CHOICES`. */
  datatype RegistrationStatus = Registered | Attended | Cancelled | NoShow

  /** The literal stored in the `status` column of a service request. */
  function RequestStatusCode(s: RequestStatus): string {
    match s
    case Pending => "pending"
    case Accepted => "accepted"
    case InProgress => "in_progress"
    case Completed => "completed"
    case Cancelled => "cancelled"
  }

  /** A Django auth user, as far as the application reads it. */
  datatype User = User(username: string, email: string, firstName: string, lastName: string, isStaff: bool)

  datatype Customer = Customer(
    user: Option<nat>,
    email: string,
    fullName: string,
    phone: string,
    organization: string,
    kind: CustomerKind,
    registeredAt: int,
    lastContact: Option<int>,
    isActive: bool,
    notes: string)

  datatype ResearchService = ResearchService(
    name: string,
    priceFrom: Option<Decimal>,
    priceTo: Option<Decimal>,
    displayOrder: int,
    isActive: bool)

  datatype ConsultancySubService = ConsultancySubService(
    name: string,
    features: string,
    hourlyRate: Option<Decimal>,
    isActive: bool)

  datatype ServiceRequest = ServiceRequest(
    customer: nat,
    service: Option<nat>,
    title: string,
    description: string,
    deadline: Option<int>,
    budget: Option<Decimal>,
    status: RequestStatus,
    notes: string,
    createdAt: int,
    updatedAt: int,
    completedAt: Option<int>)

  datatype Workshop = Workshop(
    title: string,
    date: int,
    location: string,
    isOnline: bool,
    maxParticipants: Option<int>,
    price: Option<Decimal>,
    isActive: bool)

  datatype Registration = Registration(
    workshop: nat,
    customer: nat,
    status: RegistrationStatus,
    registeredAt: int,
    attendedAt: Option<int>,
    specialRequirements: string)

  datatype Testimonial = Testimonial(
    customer: nat,
    service: Option<nat>,
    rating: int,
    quote: string,
    isPublished: bool,
    isFeatured: bool,
    createdAt: int)

  /** The tables the core reads and writes. */
  datatype Db = Db(
    users: seq<User>,
    customers: seq<Customer>,
    services: seq<ResearchService>,
    requests: seq<ServiceRequest>,
    workshops: seq<Workshop>,
    registrations: seq<Registration>,
    testimonials: seq<Testimonial>)

  // ---------------------------------------------------------------- requests

  /** `ServiceRequest.days_until_deadline`: `None` without a deadline, else
      the whole days of `deadline - now`, rounded down as `timedelta.days`
      does, so negative once the deadline has passed. */
  function DaysUntilDeadline(r: ServiceRequest, now: int): (d: Option<int>)
    ensures d.None? <==> r.deadline.None?
    ensures d.Some? ==> d.value * SecondsPerDay <= r.deadline.value - now < (d.value + 1) * SecondsPerDay
  {
    match r.deadline
    case None => None
    case Some(deadline) => Some((deadline - now) / SecondsPerDay)
  }

  /** `ServiceRequest.is_overdue`: only a completed request is exempt. */
  predicate IsOverdue(r: ServiceRequest, now: int) {
    match r.deadline
    case None => false
    case Some(deadline) => r.status != Completed && now > deadline
  }

  /** A past deadline gives a negative day count, a future or present one a
      non-negative count. */
  lemma DaysSignFollowsDeadline(r: ServiceRequest, now: int)
    requires r.deadline.Some?
    ensures DaysUntilDeadline(r, now).value < 0 <==> now > r.deadline.value
  {
  }

  /** An independent reading of `is_overdue` through the day count: a request
      is overdue exactly when it is not completed and its day count is
      negative. In particular a cancelled request can be overdue. */
  lemma OverdueIffNegativeDays(r: ServiceRequest, now: int)
    ensures IsOverdue(r, now) <==>
      r.status != Completed && DaysUntilDeadline(r, now).Some? && DaysUntilDeadline(r, now).value < 0
  {
    if r.deadline.Some? {
      DaysSignFollowsDeadline(r, now);
    }
  }

  lemma CancelledPastDeadlineIsOverdue(r: ServiceRequest, now: int)
    requires r.status == RequestStatus.Cancelled && r.deadline.Some? && now > r.deadline.value
    ensures IsOverdue(r, now)
  {
  }

  lemma CompletedNeverOverdue(r: ServiceRequest, now: int)
    requires r.status == Completed || r.deadline.None?
    ensures !IsOverdue(r, now)
  {
  }

  // --------------------------------------------------------------- customers

  /** `Customer.get_total_requests`. */
  function TotalRequests(requests: seq<ServiceRequest>, customer: nat): nat {
    Count(requests, (r: ServiceRequest) => r.customer == customer)
  }

  /** `Customer.get_completed_requests`. */
  function CompletedRequests(requests: seq<ServiceRequest>, customer: nat): nat {
    Count(requests, (r: ServiceRequest) => r.customer == customer && r.status == Completed)
  }

  lemma CompletedAtMostTotal(requests: seq<ServiceRequest>, customer: nat)
    ensures CompletedRequests(requests, customer) <= TotalRequests(requests, customer)
  {
    CountMonotone(requests,
      (r: ServiceRequest) => r.customer == customer && r.status == Completed,
      (r: ServiceRequest) => r.customer == customer);
  }

  // --------------------------------------------------------------- workshops

  predicate IsRegisteredFor(g: Registration, workshop: nat) {
    g.workshop == workshop && g.status == Registered
  }

  /** `Workshop.get_registration_count`: rows of this workshop whose status is
      `registered`. */
  function RegistrationCount(regs: seq<Registration>, workshop: nat): nat {
    Count(regs, (g: Registration) => IsRegisteredFor(g, workshop))
  }

  /** Rows of this workshop in a given status. */
  function CountInStatus(regs: seq<Registration>, workshop: nat, s: RegistrationStatus): nat {
    Count(regs, (g: Registration) => g.workshop == workshop && g.status == s)
  }

  /** Rows of this workshop in any status. */
  function CountForWorkshop(regs: seq<Registration>, workshop: nat): nat {
    Count(regs, (g: Registration) => g.workshop == workshop)
  }

  /** The four statuses partition a workshop's rows, and only the
      `registered` ones make up the registration count: attended, cancelled
      and no-show rows are the rest. */
  lemma {:induction false} RegistrationCountPartition(regs: seq<Registration>, workshop: nat)
    ensures RegistrationCount(regs, workshop)
      + CountInStatus(regs, workshop, Attended)
      + CountInStatus(regs, workshop, RegistrationStatus.Cancelled)
      + CountInStatus(regs, workshop, NoShow)
      == CountForWorkshop(regs, workshop)
    decreases |regs|
  {
    if |regs| > 0 {
      RegistrationCountPartition(regs[..|regs| - 1], workshop);
    }
  }

  /** Appending a row moves the count by one exactly when that row is a
      `registered` row of the workshop. */
  lemma RegistrationCountAppend(regs: seq<Registration>, g: Registration, workshop: nat)
    ensures RegistrationCount(regs + [g], workshop)
      == RegistrationCount(regs, workshop) + (if IsRegisteredFor(g, workshop) then 1 else 0)
  {
    assert (regs + [g])[..|regs|] == regs;
  }

  /** `Workshop.is_full`: a null or zero capacity is never full. */
  predicate IsFull(w: Workshop, regs: seq<Registration>, workshop: nat) {
    TruthyNum(w.maxParticipants) && RegistrationCount(regs, workshop) >= w.maxParticipants.value
  }

  lemma UncappedNeverFull(w: Workshop, regs: seq<Registration>, workshop: nat)
    requires w.maxParticipants.None? || w.maxParticipants == Some(0)
    ensures !IsFull(w, regs, workshop)
  {
  }

  /** `Workshop.is_upcoming`. */
  predicate IsUpcoming(w: Workshop, now: int) {
    w.date > now
  }

  /** `Workshop.is_past`. */
  predicate IsPast(w: Workshop, now: int) {
    w.date < now
  }

  /** A workshop is upcoming, past, or (exactly at its start) neither. */
  lemma UpcomingPastExclusive(w: Workshop, now: int)
    ensures !(IsUpcoming(w, now) && IsPast(w, now))
    ensures w.date == now <==> !IsUpcoming(w, now) && !IsPast(w, now)
  {
  }

  /** The `unique_together = ('workshop', 'customer')` constraint. */
  predicate UniquePairs(regs: seq<Registration>) {
    forall i, j :: 0 <= i < j < |regs| ==>
      (regs[i].workshop, regs[i].customer) != (regs[j].workshop, regs[j].customer)
  }

  // ---------------------------------------------------- consultancy features

  /** The stripped, non-blank lines, in order. */
  function NonBlankStripped(lines: seq<string>): (r: seq<string>)
    ensures |r| <= |lines|
    ensures forall k :: 0 <= k < |r| ==> r[k] != [] && IsStripped(r[k])
    decreases |lines|
  {
    if |lines| == 0 then []
    else
      var t := Strip(lines[0]);
      if t == [] then NonBlankStripped(lines[1..]) else [t] + NonBlankStripped(lines[1..])
  }

  lemma {:induction false} NonBlankStrippedAppend(a: seq<string>, b: seq<string>)
    ensures NonBlankStripped(a + b) == NonBlankStripped(a) + NonBlankStripped(b)
    decreases |a|
  {
    if |a| == 0 {
      assert a + b == b;
    } else {
      assert (a + b)[1..] == a[1..] + b;
      NonBlankStrippedAppend(a[1..], b);
    }
  }

  /** `ConsultancySubService.get_features_list`: every item is non-empty,
      stripped and free of line breaks. */
  function FeaturesList(features: string): (r: seq<string>)
    ensures features == "" ==> r == []
    ensures forall k :: 0 <= k < |r| ==> r[k] != [] && IsStripped(r[k]) && '\n' !in r[k]
  {
    if features == "" then []
    else
      var lines := Split(features, '\n');
      var r := NonBlankStripped(lines);
      assert forall k :: 0 <= k < |r| ==> '\n' !in r[k] by {
        NoNewlineSurvives(lines);
      }
      r
  }

  lemma {:induction false} NoNewlineSurvives(lines: seq<string>)
    requires forall k :: 0 <= k < |lines| ==> '\n' !in lines[k]
    ensures forall k :: 0 <= k < |NonBlankStripped(lines)| ==> '\n' !in NonBlankStripped(lines)[k]
    decreases |lines|
  {
    if |lines| > 0 {
      var tail := lines[1..];
      assert forall k :: 0 <= k < |tail| ==> tail[k] == lines[k + 1];
      NoNewlineSurvives(tail);
      StripKeepsOut(lines[0], '\n');
      var t, rest := Strip(lines[0]), NonBlankStripped(tail);
      assert NonBlankStripped(lines) == if t == [] then rest else [t] + rest;
    }
  }

  /** A single line contributes its stripped text, or nothing when blank. */
  lemma FeaturesOfOneLine(line: string)
    requires '\n' !in line
    ensures FeaturesList(line) == if IsBlank(line) then [] else [Strip(line)]
  {
    if line != "" {
      SplitNoSep(line, '\n');
    }
  }

  /** Features text split at a line break yields the features of each side,
      in order: together with `FeaturesOfOneLine` this says the result has
      one entry per non-blank line, in the order of the lines. */
  lemma FeaturesOfTwoParts(a: string, b: string)
    ensures FeaturesList(a + "\n" + b) == FeaturesList(a) + FeaturesList(b)
  {
    SplitAppend(a, b, '\n');
    NonBlankStrippedAppend(Split(a, '\n'), Split(b, '\n'));
    assert Split("", '\n') == [""];
  }

  /** Writing stripped, non-empty items one per line and reading them back
      gives the items. */
  lemma {:induction false} FeaturesRoundTrip(items: seq<string>)
    requires forall k :: 0 <= k < |items| ==> items[k] != [] && IsStripped(items[k]) && '\n' !in items[k]
    ensures FeaturesList(Join(items, '\n')) == items
    decreases |items|
  {
    if |items| == 0 {
      assert Join(items, '\n') == "";
    } else if |items| == 1 {
      assert Join(items, '\n') == items[0];
      FeaturesOfItem(items[0]);
    } else {
      assert [items[0]] + items[1..] == items;
      var rest := Join(items[1..], '\n');
      assert Join(items, '\n') == items[0] + "\n" + rest;
      FeaturesRoundTrip(items[1..]);
      FeaturesOfTwoParts(items[0], rest);
      FeaturesOfItem(items[0]);
    }
  }

  lemma FeaturesOfItem(item: string)
    requires item != [] && IsStripped(item) && '\n' !in item
    ensures FeaturesList(item) == [item]
  {
    StripStripped(item);
    FeaturesOfOneLine(item);
  }
}
