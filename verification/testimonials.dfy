/** The testimonial backfill run when the home page is served
    (`_auto_generate_testimonials` in tracker/views_frontend.py): every
    completed request with a service gets a published five-star testimonial
    keyed by its (customer, service) pair, unless one with that key exists. */
module Testimonials {

  import opened Base
  import opened Models

  /** Which of the five quote templates `random.choice` picked. */
  type Choice = k: nat | k < 5

  /** `needle` occurs in `hay`. */
  ghost predicate Contains(hay: string, needle: string) {
    exists pre, post :: hay == pre + needle + post
  }

  lemma ContainsMiddle(pre: string, needle: string, post: string)
    ensures Contains(pre + needle + post, needle)
  {
  }

  function Template(k: Choice, name: string): (q: string)
    ensures Contains(q, name)
  {
    var parts :=
      if k == 0 then ("Excellent service! The ", " was completed professionally and on time.")
      else if k == 1 then ("Very satisfied with the ", " work. Highly recommended!")
      else if k == 2 then ("Great experience with ", ". Will definitely use again.")
      else if k == 3 then ("Outstanding quality for ", ". Team was very responsive.")
      else ("Impressive results from the ", ". Worth every penny!");
    ContainsMiddle(parts.0, name, parts.1);
    parts.0 + name + parts.1
  }

  /** The five quote templates, each mentioning the service name. */
  function Quotes(name: string): (q: seq<string>)
    ensures |q| == 5
    ensures forall k :: 0 <= k < 5 ==> Contains(q[k], name)
  {
    seq(5, (k: int) requires 0 <= k < 5 => Template(k, name))
  }

  /** The backfill's trigger: the request is completed and has a service
      (its customer is a required foreign key, so always present). */
  predicate Eligible(r: ServiceRequest) {
    r.status == Completed && r.service.Some?
  }

  predicate HasKey(t: Testimonial, customer: nat, service: Option<nat>) {
    t.customer == customer && t.service == service
  }

  /** The existence check `ClientTestimonial.objects.filter(customer=…, service=…).exists()`. */
  predicate HasTestimonial(ts: seq<Testimonial>, customer: nat, service: Option<nat>) {
    exists k :: 0 <= k < |ts| && HasKey(ts[k], customer, service)
  }

  /** The shape of a testimonial the backfill writes. */
  predicate IsGenerated(t: Testimonial, names: nat -> string) {
    && t.rating == 5
    && t.isPublished
    && !t.isFeatured
    && t.service.Some?
    && t.quote in Quotes(names(t.service.value))
  }

  function Generate(r: ServiceRequest, names: nat -> string, pick: ServiceRequest -> Choice, now: int): (t: Testimonial)
    requires r.service.Some?
    ensures IsGenerated(t, names)
    ensures HasKey(t, r.customer, r.service)
    ensures Contains(t.quote, names(r.service.value))
  {
    var q := Quotes(names(r.service.value));
    Testimonial(r.customer, r.service, 5, q[pick(r)], true, false, now)
  }

  /** One pass of the backfill over `reqs` (the completed-request queryset,
      in its iteration order). Each existence check sees the rows created
      earlier in the same pass. The pass only appends, and every appended row
      has the generated shape. */
  function Backfill(reqs: seq<ServiceRequest>, ts: seq<Testimonial>, names: nat -> string,
                    pick: ServiceRequest -> Choice, now: int): (ts': seq<Testimonial>)
    ensures |ts| <= |ts'| && ts'[..|ts|] == ts
    ensures forall k :: |ts| <= k < |ts'| ==> IsGenerated(ts'[k], names)
    decreases |reqs|
  {
    if |reqs| == 0 then ts
    else
      var r := reqs[0];
      var ts1 := if Eligible(r) && !HasTestimonial(ts, r.customer, r.service)
                 then ts + [Generate(r, names, pick, now)] else ts;
      var ts' := Backfill(reqs[1..], ts1, names, pick, now);
      assert ts'[..|ts|] == ts1[..|ts|];
      ts'
  }

  lemma HasTestimonialGrows(a: seq<Testimonial>, b: seq<Testimonial>, customer: nat, service: Option<nat>)
    requires |a| <= |b| && b[..|a|] == a
    requires HasTestimonial(a, customer, service)
    ensures HasTestimonial(b, customer, service)
  {
    var k :| 0 <= k < |a| && HasKey(a[k], customer, service);
    assert b[k] == a[k];
  }

  /** After a pass, every eligible request has a testimonial with its key. */
  lemma {:induction false} BackfillCovers(reqs: seq<ServiceRequest>, ts: seq<Testimonial>, names: nat -> string,
                                          pick: ServiceRequest -> Choice, now: int)
    ensures forall i :: 0 <= i < |reqs| && Eligible(reqs[i]) ==>
      HasTestimonial(Backfill(reqs, ts, names, pick, now), reqs[i].customer, reqs[i].service)
    decreases |reqs|
  {
    if |reqs| > 0 {
      var r := reqs[0];
      var ts1 := if Eligible(r) && !HasTestimonial(ts, r.customer, r.service)
                 then ts + [Generate(r, names, pick, now)] else ts;
      var out := Backfill(reqs, ts, names, pick, now);
      assert out == Backfill(reqs[1..], ts1, names, pick, now);
      BackfillCovers(reqs[1..], ts1, names, pick, now);
      forall i | 0 <= i < |reqs| && Eligible(reqs[i])
        ensures HasTestimonial(out, reqs[i].customer, reqs[i].service)
      {
        if i == 0 {
          if HasTestimonial(ts, r.customer, r.service) {
            HasTestimonialGrows(ts, ts1, r.customer, r.service);
          } else {
            assert HasKey(ts1[|ts|], r.customer, r.service);
          }
          HasTestimonialGrows(ts1, out, r.customer, r.service);
        } else {
          assert reqs[i] == reqs[1..][i - 1];
        }
      }
    }
  }

  /** Every appended row carries the key of an eligible request, and that
      key had no testimonial before the row was written: a pass never
      writes two rows with one key and never duplicates an existing one. */
  lemma {:induction false} BackfillFresh(reqs: seq<ServiceRequest>, ts: seq<Testimonial>, names: nat -> string,
                                         pick: ServiceRequest -> Choice, now: int)
    ensures var out := Backfill(reqs, ts, names, pick, now);
      forall k :: |ts| <= k < |out| ==>
        && !HasTestimonial(out[..k], out[k].customer, out[k].service)
        && exists i :: 0 <= i < |reqs| && Eligible(reqs[i]) && HasKey(out[k], reqs[i].customer, reqs[i].service)
    decreases |reqs|
  {
    if |reqs| > 0 {
      var r := reqs[0];
      var isNew := Eligible(r) && !HasTestimonial(ts, r.customer, r.service);
      var ts1 := if isNew then ts + [Generate(r, names, pick, now)] else ts;
      var out := Backfill(reqs, ts, names, pick, now);
      assert out == Backfill(reqs[1..], ts1, names, pick, now);
      BackfillFresh(reqs[1..], ts1, names, pick, now);
      forall k | |ts| <= k < |out|
        ensures !HasTestimonial(out[..k], out[k].customer, out[k].service)
        ensures exists i :: 0 <= i < |reqs| && Eligible(reqs[i]) && HasKey(out[k], reqs[i].customer, reqs[i].service)
      {
        if k < |ts1| {
          assert isNew && k == |ts|;
          assert out[k] == ts1[k];
          assert out[..k] == ts;
          assert Eligible(reqs[0]) && HasKey(out[k], reqs[0].customer, reqs[0].service);
        } else {
          var i :| 0 <= i < |reqs[1..]| && Eligible(reqs[1..][i]) && HasKey(out[k], reqs[1..][i].customer, reqs[1..][i].service);
          assert reqs[1..][i] == reqs[i + 1];
        }
      }
    }
  }

  /** When every eligible request already has a testimonial, a pass writes nothing. */
  lemma {:induction false} BackfillSaturated(reqs: seq<ServiceRequest>, ts: seq<Testimonial>, names: nat -> string,
                                             pick: ServiceRequest -> Choice, now: int)
    requires forall i :: 0 <= i < |reqs| && Eligible(reqs[i]) ==> HasTestimonial(ts, reqs[i].customer, reqs[i].service)
    ensures Backfill(reqs, ts, names, pick, now) == ts
    decreases |reqs|
  {
    if |reqs| > 0 {
      forall i | 0 <= i < |reqs[1..]| && Eligible(reqs[1..][i])
        ensures HasTestimonial(ts, reqs[1..][i].customer, reqs[1..][i].service)
      {
        assert reqs[1..][i] == reqs[i + 1];
      }
      BackfillSaturated(reqs[1..], ts, names, pick, now);
    }
  }

  /** The backfill is idempotent: a second pass over the same requests, at
      any time and with any quote picks, leaves the table as the first left it. */
  lemma BackfillIdempotent(reqs: seq<ServiceRequest>, ts: seq<Testimonial>, names: nat -> string,
                           pick: ServiceRequest -> Choice, pick2: ServiceRequest -> Choice, now: int, now2: int)
    ensures var once := Backfill(reqs, ts, names, pick, now);
      Backfill(reqs, once, names, pick2, now2) == once
  {
    var once := Backfill(reqs, ts, names, pick, now);
    BackfillCovers(reqs, ts, names, pick, now);
    BackfillSaturated(reqs, once, names, pick2, now2);
  }

  /** A completed request without a service never yields a testimonial. */
  lemma NoServiceNoTestimonial(r: ServiceRequest, ts: seq<Testimonial>, names: nat -> string,
                               pick: ServiceRequest -> Choice, now: int)
    requires r.status == Completed && r.service.None?
    ensures Backfill([r], ts, names, pick, now) == ts
  {
    assert [r][1..] == [];
  }
}
