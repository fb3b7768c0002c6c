/** The computed columns of the admin site (tracker/admin.py): price range
    text, participant count, question preview, status badge colour, rating
    stars, and the single-row rule for the company profile. */
module AdminDisplay {

  import opened Base
  import opened Text
  import opened Models

  const PriceOnRequest: string := "Price upon request"

  /** `ResearchServiceAdmin.price_range`; `fmt` is Python's rendering of a
      `Decimal`. A price counts as set when it is truthy (not null, not 0). */
  function PriceRange(priceFrom: Option<Decimal>, priceTo: Option<Decimal>, fmt: Decimal -> string): (r: string)
    ensures r == PriceOnRequest <==> !TruthyNum(priceFrom)
    ensures TruthyNum(priceFrom) && TruthyNum(priceTo) ==>
      var f, t := fmt(priceFrom.value), fmt(priceTo.value);
      && |r| == |f| + |t| + 5
      && r[..1] == "$" && r[1..1 + |f|] == f && r[1 + |f|..5 + |f|] == " - $" && r[5 + |f|..] == t
    ensures TruthyNum(priceFrom) && !TruthyNum(priceTo) ==>
      var f := fmt(priceFrom.value);
      |r| == |f| + 6 && r[..6] == "From $" && r[6..] == f
  {
    if TruthyNum(priceFrom) && TruthyNum(priceTo) then
      var r := "$" + fmt(priceFrom.value) + " - $" + fmt(priceTo.value);
      assert r[0] != PriceOnRequest[0];
      r
    else if TruthyNum(priceFrom) then
      var r := "From $" + fmt(priceFrom.value);
      assert r[0] != PriceOnRequest[0];
      r
    else PriceOnRequest
  }

  /** The prices a price-range text shows, read back with `parse`: the
      lower and the upper price, `None` where the text shows none, or `None`
      overall for a text `PriceRange` never writes. */
  function ReadPriceRange(text: string, parse: string -> Option<Decimal>): Option<(Option<Decimal>, Option<Decimal>)> {
    if text == PriceOnRequest then Some((None, None))
    else if |text| >= 6 && text[..6] == "From $" then
      match parse(text[6..])
      case Some(f) => Some((Some(f), None))
      case None => None
    else if |text| >= 1 && text[0] == '$' then
      var parts := Split(text[1..], ' ');
      if |parts| == 3 && parts[1] == "-" && |parts[2]| >= 1 && parts[2][0] == '$' then
        match (parse(parts[0]), parse(parts[2][1..]))
        case (Some(f), Some(t)) => Some((Some(f), Some(t)))
        case _ => None
      else None
    else None
  }

  /** Splitting the both-prices text on spaces gives the lower price, the
      dash, and the dollar sign with the upper price. */
  lemma RangePartsSplit(f: string, t: string)
    requires ' ' !in f && ' ' !in t
    ensures Split(f + " - $" + t, ' ') == [f, "-", "$" + t]
  {
    assert f + " - $" + t == f + [' '] + ("-" + [' '] + ("$" + t));
    SplitAppend(f, "-" + [' '] + ("$" + t), ' ');
    SplitAppend("-", "$" + t, ' ');
    SplitNoSep(f, ' ');
    SplitNoSep("-", ' ');
    SplitNoSep("$" + t, ' ');
  }

  /** The both-prices text reads back to its two prices. */
  lemma ReadBothPrices(f: string, t: string, lo: Decimal, hi: Decimal, parse: string -> Option<Decimal>)
    requires ' ' !in f && ' ' !in t
    requires parse(f) == Some(lo) && parse(t) == Some(hi)
    ensures ReadPriceRange("$" + f + " - $" + t, parse) == Some((Some(lo), Some(hi)))
  {
    var text := "$" + f + " - $" + t;
    assert text[0] == '$' && text[1..] == f + " - $" + t;
    assert text != PriceOnRequest && !(|text| >= 6 && text[..6] == "From $");
    RangePartsSplit(f, t);
    assert Split(text[1..], ' ') == [f, "-", "$" + t];
    assert ("$" + t)[1..] == t;
  }

  /** The lower-price-only text reads back to its price. */
  lemma ReadFromPrice(f: string, lo: Decimal, parse: string -> Option<Decimal>)
    requires parse(f) == Some(lo)
    ensures ReadPriceRange("From $" + f, parse) == Some((Some(lo), None))
  {
    var text := "From $" + f;
    assert text != PriceOnRequest by { assert text[0] != PriceOnRequest[0]; }
    assert text[..6] == "From $" && text[6..] == f;
  }

  /** Whenever the price rendering has no spaces and `parse` reads it back,
      the price-range text determines the prices it shows: the lower price
      when set, and the upper price when both are set. */
  lemma PriceRangeReadBack(priceFrom: Option<Decimal>, priceTo: Option<Decimal>,
                           fmt: Decimal -> string, parse: string -> Option<Decimal>)
    requires forall d :: ' ' !in fmt(d) && parse(fmt(d)) == Some(d)
    ensures ReadPriceRange(PriceRange(priceFrom, priceTo, fmt), parse) ==
      Some((if TruthyNum(priceFrom) then Some(priceFrom.value) else None,
            if TruthyNum(priceFrom) && TruthyNum(priceTo) then Some(priceTo.value) else None))
  {
    if TruthyNum(priceFrom) && TruthyNum(priceTo) {
      var f, t := fmt(priceFrom.value), fmt(priceTo.value);
      assert PriceRange(priceFrom, priceTo, fmt) == "$" + f + " - $" + t;
      ReadBothPrices(f, t, priceFrom.value, priceTo.value, parse);
    } else if TruthyNum(priceFrom) {
      assert PriceRange(priceFrom, priceTo, fmt) == "From $" + fmt(priceFrom.value);
      ReadFromPrice(fmt(priceFrom.value), priceFrom.value, parse);
    }
  }

  // ------------------------------------------------------ participant count

  /** `WorkshopAdmin.participant_count` for workshop `workshop` (row `w`):
      "count/max" when the capacity is truthy, the bare count otherwise. */
  function ParticipantCount(w: Workshop, regs: seq<Registration>, workshop: nat): (r: string)
    ensures TruthyNum(w.maxParticipants) <==> '/' in r
    ensures !TruthyNum(w.maxParticipants) ==> ParseInt(r) == Some(RegistrationCount(regs, workshop) as int)
  {
    var count := RegistrationCount(regs, workshop);
    NoSlashInNumber(count);
    IntToStringRoundTrip(count);
    if TruthyNum(w.maxParticipants) then
      var r := IntToString(count) + "/" + IntToString(w.maxParticipants.value);
      assert r[|IntToString(count)|] == '/';
      r
    else IntToString(count)
  }

  lemma NoSlashInNumber(i: int)
    ensures '/' !in IntToString(i)
  {
    var r := IntToString(i);
    forall k | 0 <= k < |r|
      ensures r[k] != '/'
    {
      if k > 0 || i >= 0 {
        assert IsDigit(r[k]);
      }
    }
  }

  /** The rendered text reads back as the count and, when capped, the
      capacity: splitting on '/' and parsing each part inverts the rendering. */
  lemma ParticipantCountReadBack(w: Workshop, regs: seq<Registration>, workshop: nat)
    ensures var parts := Split(ParticipantCount(w, regs, workshop), '/');
      && |parts| == (if TruthyNum(w.maxParticipants) then 2 else 1)
      && ParseInt(parts[0]) == Some(RegistrationCount(regs, workshop) as int)
      && (TruthyNum(w.maxParticipants) ==> ParseInt(parts[1]) == w.maxParticipants)
  {
    var count := RegistrationCount(regs, workshop);
    var r := ParticipantCount(w, regs, workshop);
    NoSlashInNumber(count);
    IntToStringRoundTrip(count);
    if TruthyNum(w.maxParticipants) {
      var m := w.maxParticipants.value;
      NoSlashInNumber(m);
      IntToStringRoundTrip(m);
      var parts := [IntToString(count), IntToString(m)];
      assert Join(parts[1..], '/') == IntToString(m);
      assert Join(parts, '/') == r;
      SplitJoin(parts, '/');
    } else {
      SplitNoSep(r, '/');
    }
  }

  // ------------------------------------------------------ question preview

  const PreviewLength: nat := 75

  /** `ServiceFAQAdmin.question_preview`: questions longer than 75 characters
      are cut to their first 75 and marked with "...". */
  function QuestionPreview(q: string): (r: string)
    ensures |q| <= PreviewLength ==> r == q
    ensures |q| > PreviewLength ==> |r| == PreviewLength + 3
    ensures |r| <= PreviewLength + 3
    ensures |q| > PreviewLength ==> r[..PreviewLength] == q[..PreviewLength] && r[PreviewLength..] == "..."
  {
    if |q| > PreviewLength then q[..PreviewLength] + "..." else q
  }

  /** Previewing a preview changes nothing. */
  lemma QuestionPreviewIdempotent(q: string)
    ensures QuestionPreview(QuestionPreview(q)) == QuestionPreview(q)
  {
    var r := QuestionPreview(q);
    if |q| > PreviewLength {
      assert r[..PreviewLength] + r[PreviewLength..] == r;
    }
  }

  // ---------------------------------------------------------- status badge

  const DefaultColour: string := "#999"

  /** The colour of `ServiceRequestAdmin.status_badge` for a raw status value:
      the five request statuses have their own colour, anything else grey. */
  function StatusColour(status: string): (c: string)
    ensures c != DefaultColour <==> exists s: RequestStatus :: status == RequestStatusCode(s)
  {
    if status == "pending" then
      assert status == RequestStatusCode(Pending);
      "#FF9800"
    else if status == "accepted" then
      assert status == RequestStatusCode(Accepted);
      "#2196F3"
    else if status == "in_progress" then
      assert status == RequestStatusCode(InProgress);
      "#03A9F4"
    else if status == "completed" then
      assert status == RequestStatusCode(Completed);
      "#4CAF50"
    else if status == "cancelled" then
      assert status == RequestStatusCode(RequestStatus.Cancelled);
      "#F44336"
    else DefaultColour
  }

  /** Different statuses are told apart by colour. */
  lemma StatusColoursDistinct(s: RequestStatus, t: RequestStatus)
    requires s != t
    ensures StatusColour(RequestStatusCode(s)) != StatusColour(RequestStatusCode(t))
  {
  }

  // ---------------------------------------------------------- rating stars

  const Star: char := '\U{2B50}'

  /** `ClientTestimonialAdmin.rating_stars`: the rating repeated as stars,
      nothing for a rating of zero or less. */
  function RatingStars(rating: int): (r: string)
    ensures |r| == if rating <= 0 then 0 else rating
    ensures forall k :: 0 <= k < |r| ==> r[k] == Star
  {
    Repeat(Star, rating)
  }

  /** The star text determines any positive rating. */
  lemma RatingStarsInjective(a: int, b: int)
    requires a >= 1 && b >= 1
    requires RatingStars(a) == RatingStars(b)
    ensures a == b
  {
    assert |RatingStars(a)| == a;
  }

  // ------------------------------------------------------- company profile

  datatype CompanyProfile = CompanyProfile(companyName: string, isActive: bool)

  /** `CompanyProfileAdmin.has_add_permission`. */
  predicate CanAddProfile(profiles: seq<CompanyProfile>) {
    |profiles| == 0
  }

  /** `CompanyProfileAdmin.has_delete_permission`: never. */
  predicate CanDeleteProfile(profiles: seq<CompanyProfile>, k: nat) {
    false
  }

  /** The table with row `k` removed, if there is one. */
  function Without(profiles: seq<CompanyProfile>, k: nat): (r: seq<CompanyProfile>)
    ensures |r| == if k < |profiles| then |profiles| - 1 else |profiles|
  {
    if k < |profiles| then profiles[..k] + profiles[k + 1..] else profiles
  }

  /** What the admin can attempt on the profile table. */
  datatype ProfileOp = Add(p: CompanyProfile) | Delete(k: nat) | Edit(k: nat, p: CompanyProfile)

  /** One admin action, refused when the permission check says no. */
  function ApplyProfileOp(profiles: seq<CompanyProfile>, op: ProfileOp): (r: seq<CompanyProfile>)
    ensures |r| == |profiles| || (|profiles| == 0 && |r| == 1)
    ensures op.Delete? ==> r == profiles
    ensures op.Add? ==> (r != profiles <==> |profiles| == 0)
  {
    match op
    case Add(p) => if CanAddProfile(profiles) then profiles + [p] else profiles
    case Delete(k) => if CanDeleteProfile(profiles, k) then Without(profiles, k) else profiles
    case Edit(k, p) => if k < |profiles| then profiles[k := p] else profiles
  }

  function ApplyProfileOps(profiles: seq<CompanyProfile>, ops: seq<ProfileOp>): seq<CompanyProfile>
    decreases |ops|
  {
    if |ops| == 0 then profiles else ApplyProfileOps(ApplyProfileOp(profiles, ops[0]), ops[1..])
  }

  /** Whatever the admin does, there is never more than one profile, and once
      one exists it is never removed. */
  lemma {:induction false} ProfileStaysSingle(profiles: seq<CompanyProfile>, ops: seq<ProfileOp>)
    requires |profiles| <= 1
    ensures |ApplyProfileOps(profiles, ops)| <= 1
    ensures |profiles| == 1 ==> |ApplyProfileOps(profiles, ops)| == 1
    decreases |ops|
  {
    if |ops| > 0 {
      ProfileStaysSingle(ApplyProfileOp(profiles, ops[0]), ops[1..]);
    }
  }
}
