/** The state-changing handlers of the public site and the staff area
    (tracker/views_frontend.py), each a function from the tables before the
    request to the tables after it and what the user is told. Messages,
    redirects and rendering are reduced to an outcome value. */
module Frontend {

  import opened Base
  import opened Text
  import opened Models

  // -------------------------------------------------------------- customers

  /** Django's `User.get_full_name()`: first and last name, stripped. */
  function UserFullName(u: User): string {
    Strip(u.firstName + " " + u.lastName)
  }

  /** `request.user.get_full_name() or request.user.username`. */
  function DisplayName(u: User): (n: string)
    ensures UserFullName(u) != "" ==> n == UserFullName(u)
    ensures UserFullName(u) == "" ==> n == u.username
  {
    var full := UserFullName(u);
    if full != "" then full else u.username
  }

  function NewCustomer(email: string, fullName: string, phone: string, now: int): Customer {
    Customer(None, email, fullName, phone, "", Individual, now, None, true, "")
  }

  /** The result of a customer `get_or_create`: the table afterwards and the
      row picked, or the exception it raised. */
  datatype Picked = Picked(customers: seq<Customer>, id: nat) | PickFailed

  /** Whether `after` is `before` or `before` with one customer appended. */
  predicate AppendsAtMostOne(before: seq<Customer>, after: seq<Customer>) {
    after == before || (|after| == |before| + 1 && after[..|before|] == before)
  }

  /** Row `c` is the one and only customer with this email. */
  predicate OnlyHolder(cs: seq<Customer>, email: string, c: nat) {
    c < |cs| && cs[c].email == email && forall i :: 0 <= i < |cs| && cs[i].email == email ==> i == c
  }

  /** `Customer.objects.get_or_create(email=user.email, defaults=…)`: the
      lookup raises when two rows share the email; otherwise the row found,
      or a new one named after the user, is afterwards the only holder of
      the email. */
  function CustomerForUser(customers: seq<Customer>, u: User, now: int): (p: Picked)
    ensures p.PickFailed? <==>
      exists i, j :: 0 <= i < j < |customers| && customers[i].email == u.email && customers[j].email == u.email
    ensures p.Picked? ==> OnlyHolder(p.customers, u.email, p.id)
    ensures p.Picked? ==> AppendsAtMostOne(customers, p.customers)
    ensures p.Picked? && p.customers != customers ==>
      && p.id == |customers|
      && p.customers[p.id] == NewCustomer(u.email, DisplayName(u), "", now)
      && forall i :: 0 <= i < |customers| ==> customers[i].email != u.email
  {
    match Get(customers, (c: Customer) => c.email == u.email)
    case One(i) => Picked(customers, i)
    case Many => PickFailed
    case NoMatch =>
      var cs := customers + [NewCustomer(u.email, DisplayName(u), "", now)];
      assert cs[..|customers|] == customers;
      Picked(cs, |customers|)
  }

  /** The tables other than customers, requests and registrations are untouched. */
  predicate SameCatalogue(a: Db, b: Db) {
    a.users == b.users && a.services == b.services && a.workshops == b.workshops
    && a.testimonials == b.testimonials
  }

  // -------------------------------------------------------- workshop signup

  datatype RegisterOutcome = Created(id: nat) | AlreadyRegistered(id: nat) | RegisterFailed | WorkshopNotFound

  datatype RegisterResult = RegisterResult(db: Db, outcome: RegisterOutcome)

  predicate WorkshopOpen(db: Db, w: nat) {
    w < |db.workshops| && db.workshops[w].isActive
  }

  predicate PairOf(g: Registration, w: nat, c: nat) {
    g.workshop == w && g.customer == c
  }

  /** Row `id` is the one and only registration of customer `c` for workshop `w`. */
  predicate OnlyRow(regs: seq<Registration>, w: nat, c: nat, id: nat) {
    id < |regs| && PairOf(regs[id], w, c) && forall i :: 0 <= i < |regs| && PairOf(regs[i], w, c) ==> i == id
  }

  /** `register_workshop`: a get-or-create on the (workshop, customer) pair.
      An existing row is returned as it is; otherwise one `registered` row is
      appended. The workshop's capacity is not consulted. */
  function RegisterWorkshop(db: Db, w: nat, u: User, now: int): (r: RegisterResult)
    ensures r.outcome == WorkshopNotFound <==> !WorkshopOpen(db, w)
    ensures r.outcome == WorkshopNotFound ==> r.db == db
    ensures !r.outcome.Created? ==> r.db.registrations == db.registrations
    ensures SameCatalogue(r.db, db) && r.db.requests == db.requests
    ensures AppendsAtMostOne(db.customers, r.db.customers)
    ensures r.db.customers != db.customers ==> forall i :: 0 <= i < |db.customers| ==> db.customers[i].email != u.email
    ensures r.outcome.AlreadyRegistered? ==>
      && r.outcome.id < |db.registrations|
      && OnlyHolder(r.db.customers, u.email, db.registrations[r.outcome.id].customer)
      && OnlyRow(db.registrations, w, db.registrations[r.outcome.id].customer, r.outcome.id)
    ensures r.outcome.Created? ==>
      && r.outcome.id == |db.registrations|
      && |r.db.registrations| == |db.registrations| + 1
      && var c := r.db.registrations[r.outcome.id].customer;
      && r.db.registrations == db.registrations + [Registration(w, c, Registered, now, None, "")]
      && OnlyHolder(r.db.customers, u.email, c)
      && forall i :: 0 <= i < |db.registrations| ==> !PairOf(db.registrations[i], w, c)
    ensures r.outcome == RegisterFailed ==>
      (exists i, j :: 0 <= i < j < |db.customers| && db.customers[i].email == u.email && db.customers[j].email == u.email)
      || (exists c, i, j :: OnlyHolder(r.db.customers, u.email, c) && 0 <= i < j < |db.registrations|
            && PairOf(db.registrations[i], w, c) && PairOf(db.registrations[j], w, c))
  {
    if !WorkshopOpen(db, w) then RegisterResult(db, WorkshopNotFound)
    else
      match CustomerForUser(db.customers, u, now)
      case PickFailed => RegisterResult(db, RegisterFailed)
      case Picked(cs, c) =>
        var db1 := db.(customers := cs);
        match Get(db.registrations, (g: Registration) => PairOf(g, w, c))
        case One(i) => RegisterResult(db1, AlreadyRegistered(i))
        case Many => RegisterResult(db1, RegisterFailed)
        case NoMatch =>
          var g := Registration(w, c, Registered, now, None, "");
          RegisterResult(db1.(registrations := db.registrations + [g]), Created(|db.registrations|))
  }

  /** Registration keeps the one-row-per-(workshop, customer) rule. */
  lemma RegisterKeepsPairsUnique(db: Db, w: nat, u: User, now: int)
    requires UniquePairs(db.registrations)
    ensures UniquePairs(RegisterWorkshop(db, w, u, now).db.registrations)
  {
  }

  /** No capacity check: a new pair is registered even when the workshop is
      already full, and the registered count then exceeds the capacity. */
  lemma RegisterIgnoresCapacity(db: Db, w: nat, u: User, now: int)
    requires WorkshopOpen(db, w)
    requires IsFull(db.workshops[w], db.registrations, w)
    requires RegisterWorkshop(db, w, u, now).outcome.Created?
    ensures var regs := RegisterWorkshop(db, w, u, now).db.registrations;
      RegistrationCount(regs, w) == RegistrationCount(db.registrations, w) + 1
      && RegistrationCount(regs, w) > db.workshops[w].maxParticipants.value
  {
    var r := RegisterWorkshop(db, w, u, now);
    RegistrationCountAppend(db.registrations, r.db.registrations[r.outcome.id], w);
  }

  /** Every registration row refers to an existing customer. */
  predicate CustomersExist(db: Db) {
    forall i :: 0 <= i < |db.registrations| ==> db.registrations[i].customer < |db.customers|
  }

  /** With unique customer emails and intact foreign keys, a user with no
      row for an open workshop always gets one, however full the workshop is. */
  lemma RegisterNewPairSucceeds(db: Db, w: nat, u: User, now: int)
    requires WorkshopOpen(db, w) && CustomersExist(db)
    requires forall i, j :: 0 <= i < j < |db.customers| ==> db.customers[i].email != db.customers[j].email
    requires forall i :: 0 <= i < |db.registrations| && db.registrations[i].workshop == w ==>
      db.customers[db.registrations[i].customer].email != u.email
    ensures RegisterWorkshop(db, w, u, now).outcome.Created?
  {
    var r := RegisterWorkshop(db, w, u, now);
    forall c | OnlyHolder(r.db.customers, u.email, c)
      ensures forall i :: 0 <= i < |db.registrations| ==> !PairOf(db.registrations[i], w, c)
    {
      HolderHasNoRow(db, w, u, r.db.customers, c);
    }
  }

  /** The customer row holding the user's email, found or newly appended,
      has no registration for a workshop where no existing row of that
      email has one. */
  lemma HolderHasNoRow(db: Db, w: nat, u: User, cs: seq<Customer>, c: nat)
    requires CustomersExist(db)
    requires AppendsAtMostOne(db.customers, cs) && OnlyHolder(cs, u.email, c)
    requires forall i :: 0 <= i < |db.registrations| && db.registrations[i].workshop == w ==>
      db.customers[db.registrations[i].customer].email != u.email
    ensures forall i :: 0 <= i < |db.registrations| ==> !PairOf(db.registrations[i], w, c)
  {
    forall i | 0 <= i < |db.registrations| && db.registrations[i].workshop == w
      ensures db.registrations[i].customer != c
    {
      var k := db.registrations[i].customer;
      assert cs[k] == db.customers[k];
    }
  }

  /** A user whose email has exactly one customer row gets that row back,
      with the table unchanged. */
  lemma CustomerForUserFinds(cs: seq<Customer>, u: User, c: nat, now: int)
    requires OnlyHolder(cs, u.email, c)
    ensures CustomerForUser(cs, u, now) == Picked(cs, c)
  {
    var p := CustomerForUser(cs, u, now);
    assert forall i, j :: 0 <= i < j < |cs| && cs[i].email == u.email ==> cs[j].email != u.email;
    assert p.Picked?;
    assert p.customers == cs;
  }

  /** An open workshop the user already has exactly one row for returns that
      row and changes nothing. */
  lemma RegisterFinds(db: Db, w: nat, u: User, now: int, c: nat, id: nat)
    requires WorkshopOpen(db, w)
    requires OnlyHolder(db.customers, u.email, c)
    requires OnlyRow(db.registrations, w, c, id)
    ensures RegisterWorkshop(db, w, u, now) == RegisterResult(db, AlreadyRegistered(id))
  {
    CustomerForUserFinds(db.customers, u, c, now);
    assert db.(customers := db.customers) == db;
  }

  /** Registering twice: the second call finds the row the first one made
      (or found) and changes nothing. */
  lemma RegisterTwice(db: Db, w: nat, u: User, now: int, later: int)
    requires RegisterWorkshop(db, w, u, now).outcome.Created? || RegisterWorkshop(db, w, u, now).outcome.AlreadyRegistered?
    ensures var first := RegisterWorkshop(db, w, u, now);
      var second := RegisterWorkshop(first.db, w, u, later);
      second.db == first.db && second.outcome == AlreadyRegistered(first.outcome.id)
  {
    var first := RegisterWorkshop(db, w, u, now);
    var id := first.outcome.id;
    var c := first.db.registrations[id].customer;
    assert OnlyHolder(first.db.customers, u.email, c);
    assert OnlyRow(first.db.registrations, w, c, id);
    RegisterFinds(first.db, w, u, later, c, id);
  }

  // ------------------------------------------------------- staff status edits

  /** The staff `action` on one request: a plain assignment from whatever
      status the request is in; `complete` stamps `completed_at` each time;
      any other action saves nothing. */
  function ApplyAction(req: ServiceRequest, action: string, now: int): (r: ServiceRequest)
    ensures r.(status := req.status, updatedAt := req.updatedAt, completedAt := req.completedAt) == req
    ensures r.completedAt != req.completedAt ==> r.completedAt == Some(now) && r.status == Completed
    ensures r != req ==> r.updatedAt == now && action in {"accept", "complete", "cancel"}
  {
    if action == "accept" then req.(status := Accepted, updatedAt := now)
    else if action == "complete" then req.(status := Completed, completedAt := Some(now), updatedAt := now)
    else if action == "cancel" then req.(status := RequestStatus.Cancelled, updatedAt := now)
    else req
  }

  /** Each action reaches its status from every status, with no ordering. */
  lemma ActionsIgnorePriorStatus(req: ServiceRequest, now: int)
    ensures ApplyAction(req, "accept", now).status == Accepted
    ensures ApplyAction(req, "complete", now).status == Completed
    ensures ApplyAction(req, "complete", now).completedAt == Some(now)
    ensures ApplyAction(req, "cancel", now).status == RequestStatus.Cancelled
    ensures ApplyAction(req, "cancel", now).completedAt == req.completedAt
  {
  }

  /** Completing twice keeps the status but moves `completed_at` to the
      second time; cancelling a completed request leaves its stamp behind. */
  lemma CompleteTwiceRestamps(req: ServiceRequest, t1: int, t2: int)
    ensures var once := ApplyAction(req, "complete", t1);
      ApplyAction(once, "complete", t2).status == Completed
      && ApplyAction(once, "complete", t2).completedAt == Some(t2)
      && ApplyAction(once, "cancel", t2).completedAt == Some(t1)
  {
  }

  lemma UnknownActionChangesNothing(req: ServiceRequest, action: string, now: int)
    requires action !in {"accept", "complete", "cancel"}
    ensures ApplyAction(req, action, now) == req
  {
  }

  datatype AdminOutcome = NotStaff | RequestNotFound | Handled

  datatype AdminResult = AdminResult(db: Db, outcome: AdminOutcome)

  /** The POST branch of `admin_requests`: look up the request by id and
      apply the action to it alone. */
  function AdminRequests(db: Db, isStaff: bool, action: string, id: int, now: int): (r: AdminResult)
    ensures r.outcome == NotStaff <==> !isStaff
    ensures r.outcome == RequestNotFound <==> isStaff && !(0 <= id < |db.requests|)
    ensures r.outcome != Handled ==> r.db == db
    ensures r.db.(requests := db.requests) == db
    ensures |r.db.requests| == |db.requests|
    ensures forall j :: 0 <= j < |db.requests| && j != id ==> r.db.requests[j] == db.requests[j]
    ensures r.outcome == Handled ==> r.db.requests[id] == ApplyAction(db.requests[id], action, now)
  {
    if !isStaff then AdminResult(db, NotStaff)
    else if !(0 <= id < |db.requests|) then AdminResult(db, RequestNotFound)
    else AdminResult(db.(requests := db.requests[id := ApplyAction(db.requests[id], action, now)]), Handled)
  }

  // --------------------------------------------------------------- reports

  /** The month before (`year`, `month`) in `admin_reports`. For a calendar
      month the result is its calendar predecessor: one month earlier when
      months are counted from year 0. */
  function PreviousMonth(year: int, month: int): (r: (int, int))
    ensures 1 <= month <= 12 ==> 1 <= r.1 <= 12 && r.0 * 12 + (r.1 - 1) == year * 12 + (month - 1) - 1
  {
    var lastMonth := if month > 1 then month - 1 else 12;
    var lastYear := if month > 1 then year else year - 1;
    (lastYear, lastMonth)
  }

  lemma JanuaryFollowsDecember(year: int)
    ensures PreviousMonth(year, 1) == (year - 1, 12)
  {
  }

  // ---------------------------------------------------------- contact form

  /** The raw POST fields of the contact form. */
  datatype ContactForm = ContactForm(fullName: string, email: string, phone: string,
                                     service: string, subject: string, message: string)

  datatype SubmitOutcome = MissingFields | Submitted | SubmitFailed | NotFound | LoginRequired

  datatype SubmitResult = SubmitResult(db: Db, outcome: SubmitOutcome)

  predicate HasNamePhone(c: Customer, fullName: string, phone: string) {
    c.fullName == fullName && c.phone == phone
  }

  /** Row `c` is the one and only customer with this name and phone. */
  predicate OnlyNamePhone(cs: seq<Customer>, fullName: string, phone: string, c: nat) {
    c < |cs| && HasNamePhone(cs[c], fullName, phone)
    && forall i :: 0 <= i < |cs| && HasNamePhone(cs[i], fullName, phone) ==> i == c
  }

  /** When the name-and-phone `get_or_create` raises: the lookup matches two
      rows, or it matches none and the new row's email is already taken. */
  predicate NamePhonePickFails(customers: seq<Customer>, fullName: string, phone: string, email: string) {
    (exists i, j :: 0 <= i < j < |customers|
       && HasNamePhone(customers[i], fullName, phone) && HasNamePhone(customers[j], fullName, phone))
    || ((forall i :: 0 <= i < |customers| ==> !HasNamePhone(customers[i], fullName, phone))
        && exists i :: 0 <= i < |customers| && customers[i].email == email)
  }

  /** `Customer.objects.get_or_create(full_name=…, phone=…, defaults={'email': …})`.
      The pair is not unique, so the lookup may raise; a new row whose email
      is taken violates the unique `email` column and raises too. */
  function CustomerByNameAndPhone(customers: seq<Customer>, fullName: string, phone: string,
                                  email: string, now: int): (p: Picked)
    ensures p.PickFailed? <==> NamePhonePickFails(customers, fullName, phone, email)
    ensures p.Picked? ==> OnlyNamePhone(p.customers, fullName, phone, p.id)
    ensures p.Picked? ==> AppendsAtMostOne(customers, p.customers)
    ensures p.Picked? && p.customers != customers ==>
      && p.id == |customers|
      && p.customers[p.id] == NewCustomer(email, fullName, phone, now)
      && forall i :: 0 <= i < |customers| ==> !HasNamePhone(customers[i], fullName, phone)
  {
    match Get(customers, (c: Customer) => HasNamePhone(c, fullName, phone))
    case One(i) => Picked(customers, i)
    case Many => PickFailed
    case NoMatch => CreateByNamePhone(customers, fullName, phone, email, now)
  }

  /** The create half of the name-and-phone `get_or_create`, once the
      lookup has matched nothing. */
  function CreateByNamePhone(customers: seq<Customer>, fullName: string, phone: string,
                             email: string, now: int): (p: Picked)
    requires forall i :: 0 <= i < |customers| ==> !HasNamePhone(customers[i], fullName, phone)
    ensures p.PickFailed? <==> exists i :: 0 <= i < |customers| && customers[i].email == email
    ensures p.Picked? ==>
      && p.id == |customers|
      && p.customers == customers + [NewCustomer(email, fullName, phone, now)]
      && OnlyNamePhone(p.customers, fullName, phone, p.id)
      && AppendsAtMostOne(customers, p.customers)
  {
    if exists i :: 0 <= i < |customers| && customers[i].email == email then PickFailed
    else
      var cs := customers + [NewCustomer(email, fullName, phone, now)];
      assert cs[..|customers|] == customers;
      Picked(cs, |customers|)
  }

  /** Whether `after` is `before` with one request appended, and that request. */
  predicate AppendsRequest(before: seq<ServiceRequest>, after: seq<ServiceRequest>) {
    |after| == |before| + 1 && after[..|before|] == before
  }

  /** The saved contact request: `pending`, made by customer `c`, and
      linked to a service only when `serviceId` names an existing one. */
  predicate IsContactRequest(req: ServiceRequest, c: nat, subject: string, message: string,
                             serviceId: string, parseId: string -> Option<int>, services: nat) {
    && req.customer == c
    && req.status == Pending
    && req.title == subject && req.description == message
    && req.deadline.None? && req.budget.None? && req.completedAt.None?
    && (req.service.Some? <==>
          serviceId != "" && parseId(serviceId).Some? && 0 <= parseId(serviceId).value < services)
    && (req.service.Some? ==> req.service.value == parseId(serviceId).value)
  }

  /** The part of `contact` after the customer is known: the request row is
      written first, then the service id is resolved. */
  function FileContactRequest(db: Db, cs: seq<Customer>, c: nat, subject: string, message: string,
                              serviceId: string, parseId: string -> Option<int>, now: int): (r: SubmitResult)
    ensures r.db.customers == cs
    ensures r.db == db.(customers := cs, requests := r.db.requests)
    ensures AppendsRequest(db.requests, r.db.requests)
    ensures IsContactRequest(r.db.requests[|db.requests|], c, subject, message, serviceId, parseId, |db.services|)
    ensures r.outcome == SubmitFailed <==> serviceId != "" && parseId(serviceId).None?
    ensures r.outcome in {Submitted, SubmitFailed}
  {
    var req := ServiceRequest(c, None, subject, message, None, None, Pending, "", now, now, None);
    var saved := db.(customers := cs, requests := db.requests + [req]);
    assert saved.requests[..|db.requests|] == db.requests;
    if serviceId == "" then SubmitResult(saved, Submitted)
    else
      match parseId(serviceId)
      case None => SubmitResult(saved, SubmitFailed)
      case Some(n) =>
        if 0 <= n < |db.services| then
          var linked := saved.(requests := db.requests + [req.(service := Some(n as nat))]);
          assert linked.requests[..|db.requests|] == db.requests;
          SubmitResult(linked, Submitted)
        else SubmitResult(saved, Submitted)
  }

  /** `contact` (POST). The four required fields are checked after
      stripping; a request is created as `pending` and only then is the
      service id looked up, so an unknown id leaves the service null and an
      id that is not a number fails after the request has been saved.
      `parseId` stands for Django's integer conversion of the id. */
  function Contact(db: Db, f: ContactForm, parseId: string -> Option<int>, now: int): (r: SubmitResult)
    ensures r.outcome == MissingFields <==>
      Strip(f.fullName) == "" || Strip(f.email) == "" || Strip(f.subject) == "" || Strip(f.message) == ""
    ensures r.outcome == MissingFields ==> r.db == db
    ensures r.outcome in {MissingFields, Submitted, SubmitFailed}
    ensures r.outcome == SubmitFailed <==>
      && r.outcome != MissingFields
      && (NamePhonePickFails(db.customers, Strip(f.fullName), Strip(f.phone), Strip(f.email))
          || (Strip(f.service) != "" && parseId(Strip(f.service)).None?))
    ensures r.db.requests == db.requests ==> r.db == db
    ensures r.db.requests == db.requests || AppendsRequest(db.requests, r.db.requests)
    ensures r.db == db.(customers := r.db.customers, requests := r.db.requests)
    ensures AppendsAtMostOne(db.customers, r.db.customers)
    ensures r.outcome == Submitted ==> AppendsRequest(db.requests, r.db.requests)
    ensures AppendsRequest(db.requests, r.db.requests) ==>
      var req := r.db.requests[|db.requests|];
      && OnlyNamePhone(r.db.customers, Strip(f.fullName), Strip(f.phone), req.customer)
      && IsContactRequest(req, req.customer, Strip(f.subject), Strip(f.message), Strip(f.service), parseId, |db.services|)
    ensures r.db.customers != db.customers ==>
      r.db.customers == db.customers + [NewCustomer(Strip(f.email), Strip(f.fullName), Strip(f.phone), now)]
  {
    ContactFields(db, Strip(f.fullName), Strip(f.email), Strip(f.phone), Strip(f.service),
                  Strip(f.subject), Strip(f.message), parseId, now)
  }

  /** `contact` on the already stripped fields. Nothing is written unless the
      four required fields are non-empty and the customer lookup succeeds;
      then the request row is written, whatever becomes of the service id. */
  function ContactFields(db: Db, fullName: string, email: string, phone: string, serviceId: string,
                         subject: string, message: string, parseId: string -> Option<int>, now: int): (r: SubmitResult)
    ensures r.outcome == MissingFields <==> fullName == "" || email == "" || subject == "" || message == ""
    ensures r.outcome == MissingFields ==> r.db == db
    ensures r.outcome in {MissingFields, Submitted, SubmitFailed}
    ensures r.outcome == SubmitFailed <==>
      && r.outcome != MissingFields
      && (NamePhonePickFails(db.customers, fullName, phone, email) || (serviceId != "" && parseId(serviceId).None?))
    ensures r.db.requests == db.requests ==> r.db == db
    ensures r.db.requests == db.requests || AppendsRequest(db.requests, r.db.requests)
    ensures r.db == db.(customers := r.db.customers, requests := r.db.requests)
    ensures AppendsAtMostOne(db.customers, r.db.customers)
    ensures r.outcome == Submitted ==> AppendsRequest(db.requests, r.db.requests)
    ensures AppendsRequest(db.requests, r.db.requests) ==>
      var req := r.db.requests[|db.requests|];
      && OnlyNamePhone(r.db.customers, fullName, phone, req.customer)
      && IsContactRequest(req, req.customer, subject, message, serviceId, parseId, |db.services|)
    ensures r.db.customers != db.customers ==>
      r.db.customers == db.customers + [NewCustomer(email, fullName, phone, now)]
  {
    if fullName == "" || email == "" || subject == "" || message == "" then SubmitResult(db, MissingFields)
    else
      match CustomerByNameAndPhone(db.customers, fullName, phone, email, now)
      case PickFailed => SubmitResult(db, SubmitFailed)
      case Picked(cs, c) => FileContactRequest(db, cs, c, subject, message, serviceId, parseId, now)
  }

  /** A contact from the name and phone of exactly one existing customer is
      filed under that customer and adds no customer row. */
  lemma ContactFindsCustomer(db: Db, fullName: string, email: string, phone: string, serviceId: string,
                             subject: string, message: string, parseId: string -> Option<int>, now: int, c: nat)
    requires fullName != "" && email != "" && subject != "" && message != ""
    requires OnlyNamePhone(db.customers, fullName, phone, c)
    ensures var r := ContactFields(db, fullName, email, phone, serviceId, subject, message, parseId, now);
      && AppendsRequest(db.requests, r.db.requests)
      && r.db.customers == db.customers
      && r.db.requests[|db.requests|].customer == c
  {
    var r := ContactFields(db, fullName, email, phone, serviceId, subject, message, parseId, now);
    assert !NamePhonePickFails(db.customers, fullName, phone, email);
    assert AppendsRequest(db.requests, r.db.requests);
  }

  /** Sending the same contact form twice files both requests under one
      customer: the second submission adds a request and no customer row. */
  lemma ContactTwiceSameCustomer(db: Db, fullName: string, email: string, phone: string, serviceId: string,
                                 subject: string, message: string, parseId: string -> Option<int>,
                                 now: int, later: int)
    requires AppendsRequest(db.requests, ContactFields(db, fullName, email, phone, serviceId, subject, message, parseId, now).db.requests)
    ensures var first := ContactFields(db, fullName, email, phone, serviceId, subject, message, parseId, now);
      var second := ContactFields(first.db, fullName, email, phone, serviceId, subject, message, parseId, later);
      && AppendsRequest(first.db.requests, second.db.requests)
      && second.db.customers == first.db.customers
      && second.db.requests[|first.db.requests|].customer == first.db.requests[|db.requests|].customer
  {
    var first := ContactFields(db, fullName, email, phone, serviceId, subject, message, parseId, now);
    ContactFindsCustomer(first.db, fullName, email, phone, serviceId, subject, message, parseId, later,
                         first.db.requests[|db.requests|].customer);
  }

  // ------------------------------------------------- service request form

  /** The raw POST fields of the service request form. */
  datatype RequestForm = RequestForm(title: string, description: string, deadline: string, budget: string)

  /** A nullable form column: `''` stores null, anything else must parse.
      `None` is a value the column rejects. */
  function ParseNullable<T>(raw: string, parse: string -> Option<T>): (v: Option<Option<T>>)
    ensures v.None? <==> raw != "" && parse(raw).None?
    ensures v.Some? ==> (v.value.None? <==> raw == "")
    ensures v.Some? && v.value.Some? ==> parse(raw) == Some(v.value.value)
  {
    if raw == "" then Some(None)
    else match parse(raw) case Some(t) => Some(Some(t)) case None => None
  }

  /** The saved service request: `pending`, for service `pk`, with the
      given title and description, not completed, and the deadline and
      budget their columns convert the raw fields to (null for `''`). */
  predicate IsServiceRequest(req: ServiceRequest, pk: nat, title: string, description: string,
                             deadline: string, budget: string,
                             parseDate: string -> Option<int>, parseDecimal: string -> Option<Decimal>) {
    && req.status == Pending && req.service == Some(pk)
    && req.title == title && req.description == description
    && Some(req.deadline) == ParseNullable(deadline, parseDate)
    && Some(req.budget) == ParseNullable(budget, parseDecimal)
    && req.completedAt.None?
  }

  /** The service at position `pk` exists and is active. */
  predicate ServiceOpen(db: Db, pk: nat) {
    pk < |db.services| && db.services[pk].isActive
  }

  /** Two customer rows share this email, so an email lookup raises. */
  predicate EmailShared(customers: seq<Customer>, email: string) {
    exists i, j :: 0 <= i < j < |customers| && customers[i].email == email && customers[j].email == email
  }

  /** A raw nullable field its column cannot store. */
  predicate Unparsable<T>(raw: string, parse: string -> Option<T>) {
    raw != "" && parse(raw).None?
  }

  /** `service_request` (POST) for the service at position `pk`. Title and
      description are required after stripping; deadline and budget are
      taken unstripped, `''` meaning null, and a value their columns cannot
      parse makes the insert fail after the customer row was written.
      `parseDate` and `parseDecimal` stand for Django's column conversions. */
  function SubmitServiceRequest(db: Db, pk: nat, user: Option<User>, f: RequestForm,
                                parseDate: string -> Option<int>, parseDecimal: string -> Option<Decimal>,
                                now: int): (r: SubmitResult)
    ensures r.outcome == NotFound <==> !ServiceOpen(db, pk)
    ensures r.outcome == LoginRequired <==> ServiceOpen(db, pk) && user.None?
    ensures r.outcome == MissingFields <==>
      ServiceOpen(db, pk) && user.Some? && (Strip(f.title) == "" || Strip(f.description) == "")
    ensures r.outcome == SubmitFailed <==>
      && ServiceOpen(db, pk) && user.Some? && Strip(f.title) != "" && Strip(f.description) != ""
      && (EmailShared(db.customers, user.value.email)
          || Unparsable(f.deadline, parseDate) || Unparsable(f.budget, parseDecimal))
    ensures r.outcome in {NotFound, LoginRequired, MissingFields} ==> r.db == db
    ensures r.db == db.(customers := r.db.customers, requests := r.db.requests)
    ensures AppendsAtMostOne(db.customers, r.db.customers)
    ensures r.outcome == Submitted <==> AppendsRequest(db.requests, r.db.requests)
    ensures r.outcome != Submitted ==> r.db.requests == db.requests
    ensures r.outcome == Submitted ==>
      var req := r.db.requests[|db.requests|];
      && user.Some?
      && IsServiceRequest(req, pk, Strip(f.title), Strip(f.description), f.deadline, f.budget, parseDate, parseDecimal)
      && OnlyHolder(r.db.customers, user.value.email, req.customer)
  {
    ServiceRequestFields(db, pk, user, Strip(f.title), Strip(f.description), f.deadline, f.budget,
                         parseDate, parseDecimal, now)
  }

  /** `service_request` on the stripped title and description. */
  function ServiceRequestFields(db: Db, pk: nat, user: Option<User>, title: string, description: string,
                                deadline: string, budget: string,
                                parseDate: string -> Option<int>, parseDecimal: string -> Option<Decimal>,
                                now: int): (r: SubmitResult)
    ensures r.outcome == NotFound <==> !ServiceOpen(db, pk)
    ensures r.outcome == LoginRequired <==> ServiceOpen(db, pk) && user.None?
    ensures r.outcome == MissingFields <==> ServiceOpen(db, pk) && user.Some? && (title == "" || description == "")
    ensures r.outcome == SubmitFailed <==>
      && ServiceOpen(db, pk) && user.Some? && title != "" && description != ""
      && (EmailShared(db.customers, user.value.email)
          || Unparsable(deadline, parseDate) || Unparsable(budget, parseDecimal))
    ensures r.outcome in {NotFound, LoginRequired, MissingFields} ==> r.db == db
    ensures r.db == db.(customers := r.db.customers, requests := r.db.requests)
    ensures AppendsAtMostOne(db.customers, r.db.customers)
    ensures r.db.customers != db.customers ==>
      user.Some? && r.db.customers == db.customers + [NewCustomer(user.value.email, DisplayName(user.value), "", now)]
    ensures r.outcome == Submitted <==> AppendsRequest(db.requests, r.db.requests)
    ensures r.outcome != Submitted ==> r.db.requests == db.requests
    ensures r.outcome == Submitted ==>
      var req := r.db.requests[|db.requests|];
      && user.Some?
      && IsServiceRequest(req, pk, title, description, deadline, budget, parseDate, parseDecimal)
      && OnlyHolder(r.db.customers, user.value.email, req.customer)
  {
    if !ServiceOpen(db, pk) then SubmitResult(db, NotFound)
    else if user.None? then SubmitResult(db, LoginRequired)
    else if title == "" || description == "" then SubmitResult(db, MissingFields)
    else
      match CustomerForUser(db.customers, user.value, now)
      case PickFailed => SubmitResult(db, SubmitFailed)
      case Picked(cs, c) =>
        FileServiceRequest(db, cs, c, pk, title, description, deadline, budget, parseDate, parseDecimal, now)
  }

  /** Submitting the same request twice: the second submission succeeds
      too, adds no customer row, and is filed under the first one's customer. */
  lemma ServiceRequestTwice(db: Db, pk: nat, u: User, title: string, description: string,
                            deadline: string, budget: string,
                            parseDate: string -> Option<int>, parseDecimal: string -> Option<Decimal>,
                            now: int, later: int)
    requires ServiceRequestFields(db, pk, Some(u), title, description, deadline, budget,
                                  parseDate, parseDecimal, now).outcome == Submitted
    ensures var first := ServiceRequestFields(db, pk, Some(u), title, description, deadline, budget,
                                              parseDate, parseDecimal, now);
      var second := ServiceRequestFields(first.db, pk, Some(u), title, description, deadline, budget,
                                         parseDate, parseDecimal, later);
      && second.outcome == Submitted
      && second.db.customers == first.db.customers
      && second.db.requests[|first.db.requests|].customer == first.db.requests[|db.requests|].customer
  {
    var first := ServiceRequestFields(db, pk, Some(u), title, description, deadline, budget,
                                      parseDate, parseDecimal, now);
    var c := first.db.requests[|db.requests|].customer;
    CustomerForUserFinds(first.db.customers, u, c, later);
  }

  /** The part of `service_request` after the customer is known: the
      request row is inserted, or the insert fails on a deadline or budget
      its column cannot parse, leaving only the customer row written. */
  function FileServiceRequest(db: Db, cs: seq<Customer>, c: nat, pk: nat, title: string, description: string,
                              deadline: string, budget: string,
                              parseDate: string -> Option<int>, parseDecimal: string -> Option<Decimal>,
                              now: int): (r: SubmitResult)
    ensures r.db.customers == cs
    ensures r.db == db.(customers := cs, requests := r.db.requests)
    ensures r.outcome in {Submitted, SubmitFailed}
    ensures r.outcome == SubmitFailed <==>
      (deadline != "" && parseDate(deadline).None?) || (budget != "" && parseDecimal(budget).None?)
    ensures r.outcome == SubmitFailed ==> r.db.requests == db.requests
    ensures r.outcome == Submitted ==> AppendsRequest(db.requests, r.db.requests)
    ensures r.outcome == Submitted ==>
      var req := r.db.requests[|db.requests|];
      req.customer == c && IsServiceRequest(req, pk, title, description, deadline, budget, parseDate, parseDecimal)
  {
    var withCustomer := db.(customers := cs);
    var parsedDeadline := ParseNullable(deadline, parseDate);
    var parsedBudget := ParseNullable(budget, parseDecimal);
    if parsedDeadline.None? || parsedBudget.None? then SubmitResult(withCustomer, SubmitFailed)
    else
      var req := ServiceRequest(c, Some(pk), title, description, parsedDeadline.value, parsedBudget.value,
                                Pending, "", now, now, None);
      var saved := withCustomer.(requests := db.requests + [req]);
      assert saved.requests[..|db.requests|] == db.requests;
      SubmitResult(saved, Submitted)
  }
}
