/** The decisions of the account and JSON views (tracker/views.py): the
    availability probes for usernames and emails, how a login identifier is
    turned into a username, where logout sends the user, the price field of
    the workshop feed, and the default name of a newly registered customer. */
module Accounts {

  import opened Base
  import opened Text
  import opened Models
  import opened Forms

  /** What an availability probe answers; `Malformed` and `Taken` both carry
      `available: false`, with different messages. */
  datatype Availability = Malformed | Taken | Available

  const MinUsernameLength: nat := 3

  /** Some user has exactly this username. */
  predicate UsernameHeld(users: seq<User>, name: string) {
    exists i :: 0 <= i < |users| && users[i].username == name
  }

  /** `check_username_availability` on the JSON field `username` (`None` when
      the key is missing, read as `''`). */
  function UsernameCheck(raw: Option<string>, users: seq<User>): (r: Availability)
    ensures var name := Strip(if raw.Some? then raw.value else "");
      && (r == Malformed <==> |name| < MinUsernameLength)
      && (r == Taken <==> |name| >= MinUsernameLength && UsernameHeld(users, name))
      && (r == Available <==> |name| >= MinUsernameLength && !UsernameHeld(users, name))
  {
    NameAvailability(Strip(if raw.Some? then raw.value else ""), users)
  }

  /** `check_username_availability` after stripping: too short, held, or free. */
  function NameAvailability(name: string, users: seq<User>): (r: Availability)
    ensures r == Malformed <==> |name| < MinUsernameLength
    ensures r == Taken <==> |name| >= MinUsernameLength && UsernameHeld(users, name)
    ensures r == Available <==> |name| >= MinUsernameLength && !UsernameHeld(users, name)
  {
    if name == "" || |name| < MinUsernameLength then Malformed
    else if UsernameHeld(users, name) then Taken
    else Available
  }

  /** A name reported available is reported taken once a user holds it. */
  lemma UsernameTakenOnceUsed(name: string, users: seq<User>, u: User)
    requires NameAvailability(name, users) == Available
    requires u.username == name
    ensures NameAvailability(name, users + [u]) == Taken
  {
    assert (users + [u])[|users|] == u;
  }

  /** Some customer has exactly this email. */
  predicate CustomerEmailHeld(customers: seq<Customer>, email: string) {
    exists i :: 0 <= i < |customers| && customers[i].email == email
  }

  /** `check_email_availability` on the JSON field `email` (`None` when the
      key is missing, read as `''`). */
  function EmailCheck(raw: Option<string>, users: seq<User>, customers: seq<Customer>): (r: Availability)
    ensures var email := Strip(if raw.Some? then raw.value else "");
      && (r == Malformed <==> '@' !in email)
      && (r == Taken <==> '@' in email && (EmailHeld(users, email) || CustomerEmailHeld(customers, email)))
      && (r == Available <==> '@' in email && !EmailHeld(users, email) && !CustomerEmailHeld(customers, email))
  {
    AddressAvailability(Strip(if raw.Some? then raw.value else ""), users, customers)
  }

  /** `check_email_availability` after stripping: an address without '@'
      (the empty one included) is malformed; one a user or a customer holds
      is taken. */
  function AddressAvailability(email: string, users: seq<User>, customers: seq<Customer>): (r: Availability)
    ensures r == Malformed <==> '@' !in email
    ensures r == Taken <==> '@' in email && (EmailHeld(users, email) || CustomerEmailHeld(customers, email))
    ensures r == Available <==> '@' in email && !EmailHeld(users, email) && !CustomerEmailHeld(customers, email)
  {
    if email == "" || '@' !in email then Malformed
    else if EmailHeld(users, email) || CustomerEmailHeld(customers, email) then Taken
    else Available
  }

  /** An address the probe reports available passes the registration form's
      duplicate check, and registering it makes the probe report it taken. */
  lemma AvailableEmailPassesForm(email: string, users: seq<User>, customers: seq<Customer>)
    requires AddressAvailability(email, users, customers) == Available
    ensures CleanEmail(email, users).Valid?
    ensures AddressAvailability(email, users + [SaveUser(email)], customers) == Taken
  {
    assert (users + [SaveUser(email)])[|users|].email == email;
  }

  // ------------------------------------------------------------------ login

  /** The username `user_login` passes to `authenticate`, or the server error
      of an uncaught `MultipleObjectsReturned`. */
  datatype LoginName = AuthAs(username: string) | ServerError

  /** User `k` is the one and only user whose email matches `identifier` up to case. */
  predicate OnlyEmailMatch(users: seq<User>, identifier: string, k: nat) {
    && k < |users|
    && SameIgnoringCase(users[k].email, identifier)
    && forall i :: 0 <= i < |users| && i != k ==> !SameIgnoringCase(users[i].email, identifier)
  }

  /** The identifier branch of `user_login`: an identifier with '@' is looked
      up by case-insensitive email; a unique match gives that user's
      username, no match falls back to the identifier itself. */
  function ResolveLoginIdentifier(identifier: string, users: seq<User>): (r: LoginName)
    ensures '@' !in identifier ==> r == AuthAs(identifier)
    ensures r == ServerError <==>
      && '@' in identifier
      && exists i, j :: 0 <= i < j < |users|
           && SameIgnoringCase(users[i].email, identifier) && SameIgnoringCase(users[j].email, identifier)
    ensures (forall i :: 0 <= i < |users| ==> !SameIgnoringCase(users[i].email, identifier)) ==>
      r == AuthAs(identifier)
    ensures r.AuthAs? && r != AuthAs(identifier) ==>
      exists i :: 0 <= i < |users| && SameIgnoringCase(users[i].email, identifier) && users[i].username == r.username
    ensures forall k: nat :: '@' in identifier && OnlyEmailMatch(users, identifier, k) ==> r == AuthAs(users[k].username)
  {
    if '@' in identifier then
      match Get(users, (u: User) => SameIgnoringCase(u.email, identifier))
      case One(i) => AuthAs(users[i].username)
      case NoMatch => AuthAs(identifier)
      case Many => ServerError
    else AuthAs(identifier)
  }

  /** With emails unique up to case, resolving a login identifier never fails. */
  lemma ResolveNeverFails(identifier: string, users: seq<User>)
    requires CaselessUnique(users)
    ensures ResolveLoginIdentifier(identifier, users).AuthAs?
  {
    forall i, j | 0 <= i < j < |users|
      ensures !(SameIgnoringCase(users[i].email, identifier) && SameIgnoringCase(users[j].email, identifier))
    {
    }
  }

  /** A user signing in with their own email, in any ASCII case, is resolved
      to their username when no other user's email matches it. */
  lemma OwnEmailResolves(users: seq<User>, k: nat, identifier: string)
    requires '@' in identifier && OnlyEmailMatch(users, identifier, k)
    ensures ResolveLoginIdentifier(identifier, users) == AuthAs(users[k].username)
  {
  }

  /** Registration as written: `clean_email` compares exactly, so an email
      differing from a registered one only in case is accepted, and signing
      in with it then matches two users and fails. */
  lemma CaseVariantRegistrationBreaksLogin()
    ensures var users := [User("A@x.com", "A@x.com", "", "", false)];
      && CleanEmail("a@x.com", users).Valid?
      && ResolveLoginIdentifier("a@x.com", users + [SaveUser("a@x.com")]) == ServerError
  {
    var users := [User("A@x.com", "A@x.com", "", "", false)];
    var after := users + [SaveUser("a@x.com")];
    assert users[0].email[0] != "a@x.com"[0];
    assert LowerAscii("A@x.com") == "a@x.com";
    assert LowerAscii("a@x.com") == "a@x.com";
    assert SameIgnoringCase(after[0].email, "a@x.com") && SameIgnoringCase(after[1].email, "a@x.com");
  }

  /** Registration with the caseless duplicate check: starting from users
      whose emails differ up to case, signing in by any identifier after a
      registration still resolves to at most one user. */
  lemma CaselessRegistrationKeepsLogin(users: seq<User>, email: string, identifier: string)
    requires CaselessUnique(users)
    requires CleanEmailCaseless(email, users).Valid?
    ensures CaselessUnique(users + [SaveUser(email)])
    ensures ResolveLoginIdentifier(identifier, users + [SaveUser(email)]).AuthAs?
  {
    CleanEmailCaselessKeepsUnique(users, email);
    ResolveNeverFails(identifier, users + [SaveUser(email)]);
  }

  // ----------------------------------------------------------------- logout

  predicate NoneTruthyBefore(candidates: seq<Option<string>>, k: int) {
    forall j :: 0 <= j < k && j < |candidates| ==> !Truthy(candidates[j])
  }

  /** Python's `a or b or … or default` over optional strings: the first
      non-empty value, else the default. */
  function FirstTruthy(candidates: seq<Option<string>>, default: string): (r: string)
    ensures forall k :: 0 <= k < |candidates| && Truthy(candidates[k]) && NoneTruthyBefore(candidates, k) ==>
      r == candidates[k].value
    ensures (forall k :: 0 <= k < |candidates| ==> !Truthy(candidates[k])) ==> r == default
    decreases |candidates|
  {
    if |candidates| == 0 then default
    else if Truthy(candidates[0]) then candidates[0].value
    else
      var r := FirstTruthy(candidates[1..], default);
      assert forall k :: 1 <= k < |candidates| ==> candidates[k] == candidates[1..][k - 1];
      r
  }

  /** `logout_view`: `next` from the query string, then from the form body,
      then the configured `LOGOUT_REDIRECT_URL`, then 'home'. */
  function LogoutRedirect(getNext: Option<string>, postNext: Option<string>, configured: Option<string>): (r: string)
    ensures r != ""
    ensures Truthy(getNext) ==> r == getNext.value
  {
    if Truthy(getNext) then getNext.value
    else if Truthy(postNext) then postNext.value
    else if Truthy(configured) then configured.value
    else "home"
  }

  /** The logout chain is the first non-empty candidate, in order. */
  lemma LogoutIsFirstTruthy(getNext: Option<string>, postNext: Option<string>, configured: Option<string>)
    ensures LogoutRedirect(getNext, postNext, configured) == FirstTruthy([getNext, postNext, configured], "home")
  {
    var c := [getNext, postNext, configured];
    var r := FirstTruthy(c, "home");
    if Truthy(getNext) {
      assert Truthy(c[0]) && NoneTruthyBefore(c, 0);
    } else if Truthy(postNext) {
      assert Truthy(c[1]) && NoneTruthyBefore(c, 1);
    } else if Truthy(configured) {
      assert Truthy(c[2]) && NoneTruthyBefore(c, 2);
    } else {
      assert forall k :: 0 <= k < |c| ==> !Truthy(c[k]);
    }
  }

  // ----------------------------------------------------------- workshop feed

  /** The `price` field of `get_workshops_json`: `'0'` for a null or zero
      price, else the price's text. */
  function WorkshopPriceJson(price: Option<Decimal>, fmt: Decimal -> string): (r: string)
    ensures !TruthyNum(price) ==> r == "0"
    ensures TruthyNum(price) ==> r == fmt(price.value)
  {
    if TruthyNum(price) then fmt(price.value) else "0"
  }

  /** With a rendering that `parse` reads back and a `parse` that reads
      "0" as zero, the feed's price text reads back as the price, a null
      price as zero. */
  lemma WorkshopPriceReadBack(price: Option<Decimal>, fmt: Decimal -> string, parse: string -> Option<Decimal>)
    requires forall d :: parse(fmt(d)) == Some(d)
    requires parse("0") == Some(0)
    ensures parse(WorkshopPriceJson(price, fmt)) == Some(if price.Some? then price.value else 0)
  {
  }

  /** One entry of the workshop feed. */
  datatype WorkshopEntry = WorkshopEntry(id: nat, title: string, price: string, registeredCount: nat, isFull: bool)

  function Entry(workshops: seq<Workshop>, id: nat, regs: seq<Registration>, fmt: Decimal -> string): WorkshopEntry
    requires id < |workshops|
  {
    var w := workshops[id];
    WorkshopEntry(id, w.title, WorkshopPriceJson(w.price, fmt), RegistrationCount(regs, id), IsFull(w, regs, id))
  }

  /** The view's slice `[:10]`. */
  const FeedLimit: nat := 10

  /** The feed's filter: active and not yet started. */
  predicate Listed(w: Workshop, now: int) {
    w.isActive && w.date >= now
  }

  /** Every position in `order` names a workshop row. */
  predicate RowsOf(workshops: seq<Workshop>, order: seq<nat>) {
    forall k :: 0 <= k < |order| ==> order[k] < |workshops|
  }

  /** The ids of `order` that pass the feed's filter, in the order given. */
  function Upcoming(workshops: seq<Workshop>, order: seq<nat>, now: int): (ids: seq<nat>)
    requires RowsOf(workshops, order)
    ensures |ids| <= |order|
    ensures forall k :: 0 <= k < |ids| ==> ids[k] < |workshops| && ids[k] in order && Listed(workshops[ids[k]], now)
    ensures forall i :: 0 <= i < |order| && Listed(workshops[order[i]], now) ==> order[i] in ids
    decreases |order|
  {
    if |order| == 0 then []
    else
      var tail := order[1..];
      assert forall k :: 0 <= k < |tail| ==> tail[k] == order[k + 1];
      var rest := Upcoming(workshops, tail, now);
      if Listed(workshops[order[0]], now) then [order[0]] + rest else rest
  }

  /** The filter keeps order: filtering a concatenation concatenates the
      filtered parts. */
  lemma {:induction false} UpcomingAppend(workshops: seq<Workshop>, a: seq<nat>, b: seq<nat>, now: int)
    requires RowsOf(workshops, a) && RowsOf(workshops, b)
    ensures RowsOf(workshops, a + b)
    ensures Upcoming(workshops, a + b, now) == Upcoming(workshops, a, now) + Upcoming(workshops, b, now)
    decreases |a|
  {
    assert forall k :: 0 <= k < |a + b| ==> (a + b)[k] == if k < |a| then a[k] else b[k - |a|];
    if |a| == 0 {
      assert a + b == b;
    } else {
      assert (a + b)[1..] == a[1..] + b;
      assert RowsOf(workshops, a[1..]);
      UpcomingAppend(workshops, a[1..], b, now);
    }
  }

  /** `e` describes a listed workshop: its title, price text, registered
      count and fullness are those of the workshop row it names. */
  predicate DescribesListed(workshops: seq<Workshop>, regs: seq<Registration>, now: int,
                            fmt: Decimal -> string, e: WorkshopEntry) {
    && e.id < |workshops|
    && Listed(workshops[e.id], now)
    && e.title == workshops[e.id].title
    && e.price == WorkshopPriceJson(workshops[e.id].price, fmt)
    && e.registeredCount == RegistrationCount(regs, e.id)
    && (e.isFull <==> TruthyNum(workshops[e.id].maxParticipants)
                      && e.registeredCount >= workshops[e.id].maxParticipants.value)
  }

  /** `r` lists the first `room` of `ids` (all of them when fewer), in
      order, each entry describing its workshop. */
  predicate FeedOf(workshops: seq<Workshop>, regs: seq<Registration>, now: int, fmt: Decimal -> string,
                   ids: seq<nat>, room: nat, r: seq<WorkshopEntry>) {
    && |r| == (if room < |ids| then room else |ids|)
    && (forall k :: 0 <= k < |r| ==> r[k].id == ids[k])
    && (forall k :: 0 <= k < |r| ==> DescribesListed(workshops, regs, now, fmt, r[k]))
  }

  /** Feeds over two id lists concatenate to the feed over their concatenation. */
  lemma FeedOfAppend(workshops: seq<Workshop>, regs: seq<Registration>, now: int, fmt: Decimal -> string,
                     ia: seq<nat>, ib: seq<nat>, room: nat, ra: seq<WorkshopEntry>, rb: seq<WorkshopEntry>,
                     r: seq<WorkshopEntry>)
    requires FeedOf(workshops, regs, now, fmt, ia, room, ra)
    requires FeedOf(workshops, regs, now, fmt, ib, room - |ra|, rb)
    requires FeedOf(workshops, regs, now, fmt, ia + ib, room, r)
    ensures r == ra + rb
  {
    assert |r| == |ra + rb|;
    forall k | 0 <= k < |r|
      ensures r[k] == (ra + rb)[k]
    {
      if k < |ra| {
        assert r[k].id == ra[k].id;
        DescribedById(workshops, regs, now, fmt, r[k], ra[k]);
      } else {
        assert r[k].id == rb[k - |ra|].id;
        DescribedById(workshops, regs, now, fmt, r[k], rb[k - |ra|]);
      }
    }
  }

  /** An entry is determined by the workshop it names. */
  lemma DescribedById(workshops: seq<Workshop>, regs: seq<Registration>, now: int,
                      fmt: Decimal -> string, x: WorkshopEntry, y: WorkshopEntry)
    requires DescribesListed(workshops, regs, now, fmt, x) && DescribesListed(workshops, regs, now, fmt, y)
    requires x.id == y.id
    ensures x == y
  {
  }

  /** `get_workshops_json` over the workshops in `order` (row positions
      already sorted by date): the first `room` of the listed ones, in that
      order, each with its title, price text, registered count and fullness. */
  function WorkshopsJson(workshops: seq<Workshop>, order: seq<nat>, regs: seq<Registration>,
                         now: int, fmt: Decimal -> string, room: nat): (r: seq<WorkshopEntry>)
    requires RowsOf(workshops, order)
    ensures FeedOf(workshops, regs, now, fmt, Upcoming(workshops, order, now), room, r)
  {
    var ids := Upcoming(workshops, order, now);
    var n := if room < |ids| then room else |ids|;
    seq(n, k requires 0 <= k < n => Entry(workshops, ids[k], regs, fmt))
  }

  /** When no more than `room` workshops qualify, the feed lists every
      active workshop of `order` that has not started. */
  lemma WorkshopsJsonComplete(workshops: seq<Workshop>, order: seq<nat>, regs: seq<Registration>,
                              now: int, fmt: Decimal -> string, room: nat, i: nat)
    requires RowsOf(workshops, order)
    requires |Upcoming(workshops, order, now)| <= room
    requires i < |order| && Listed(workshops[order[i]], now)
    ensures var r := WorkshopsJson(workshops, order, regs, now, fmt, room);
      exists k :: 0 <= k < |r| && r[k].id == order[i]
  {
    var ids := Upcoming(workshops, order, now);
    var r := WorkshopsJson(workshops, order, regs, now, fmt, room);
    var k :| 0 <= k < |ids| && ids[k] == order[i];
    assert r[k].id == order[i];
  }

  /** The feed keeps the date order: the feed of `a` followed by `b` is the
      feed of `a`, then the feed of `b` in the room that is left. */
  lemma WorkshopsJsonAppend(workshops: seq<Workshop>, a: seq<nat>, b: seq<nat>, regs: seq<Registration>,
                            now: int, fmt: Decimal -> string, room: nat)
    requires RowsOf(workshops, a) && RowsOf(workshops, b)
    ensures RowsOf(workshops, a + b)
    ensures var ra := WorkshopsJson(workshops, a, regs, now, fmt, room);
      WorkshopsJson(workshops, a + b, regs, now, fmt, room)
        == ra + WorkshopsJson(workshops, b, regs, now, fmt, room - |ra|)
  {
    UpcomingAppend(workshops, a, b, now);
    var ra := WorkshopsJson(workshops, a, regs, now, fmt, room);
    FeedOfAppend(workshops, regs, now, fmt, Upcoming(workshops, a, now), Upcoming(workshops, b, now), room,
                 ra, WorkshopsJson(workshops, b, regs, now, fmt, room - |ra|),
                 WorkshopsJson(workshops, a + b, regs, now, fmt, room));
  }

  /** `get_workshops_json` with the view's own limit: at most ten
      entries, the earliest listed workshops in date order, and all of
      them when fewer than ten qualify. */
  function WorkshopsFeed(workshops: seq<Workshop>, order: seq<nat>, regs: seq<Registration>,
                         now: int, fmt: Decimal -> string): (r: seq<WorkshopEntry>)
    requires RowsOf(workshops, order)
    ensures |r| <= FeedLimit
    ensures var ids := Upcoming(workshops, order, now);
      && (|ids| <= FeedLimit ==> |r| == |ids|)
      && (|ids| > FeedLimit ==> |r| == FeedLimit)
    ensures forall k :: 0 <= k < |r| ==> r[k].id == Upcoming(workshops, order, now)[k]
    ensures forall k :: 0 <= k < |r| ==> DescribesListed(workshops, regs, now, fmt, r[k])
  {
    WorkshopsJson(workshops, order, regs, now, fmt, FeedLimit)
  }

  // --------------------------------------------------------- registration

  /** The `full_name` default of the customer `user_register` creates: the
      email up to its first '@' (all of it when there is none). */
  function DefaultFullName(email: string): (n: string)
    ensures '@' !in n
    ensures |n| <= |email| && n == email[..|n|]
    ensures |n| < |email| ==> email[|n|] == '@'
    ensures |n| == |email| ==> '@' !in email
  {
    FirstPartIsPrefix(email, '@');
    Split(email, '@')[0]
  }

  /** The local part of `local@domain` is `local` whenever `local` has no '@'. */
  lemma DefaultFullNameOfAddress(local: string, domain: string)
    requires '@' !in local
    ensures DefaultFullName(local + "@" + domain) == local
  {
    SplitAppend(local, domain, '@');
    SplitNoSep(local, '@');
    assert local + "@" + domain == local + ['@'] + domain;
  }
}
