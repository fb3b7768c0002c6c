/** Small shared vocabulary: optional values, Python truthiness of the
    optional fields the application reads, counting, and the three-way
    outcome of a Django `get` lookup over a table modelled as a sequence. */
module Base {

  /** A nullable column or an absent request parameter. */
  datatype Option<+T> = None | Some(value: T)

  /** Python truthiness of an optional string: `None` and `''` are false. */
  predicate Truthy(s: Option<string>) {
    s.Some? && s.value != ""
  }

  /** Python truthiness of a nullable number column: `None` and `0` are false. */
  predicate TruthyNum(n: Option<int>) {
    n.Some? && n.value != 0
  }

  /** Number of elements of `s` satisfying `p` (a filtered queryset's `count()`). */
  function Count<T>(s: seq<T>, p: T -> bool): (n: nat)
    ensures n <= |s|
    ensures n == 0 <==> forall i :: 0 <= i < |s| ==> !p(s[i])
    decreases |s|
  {
    if |s| == 0 then 0
    else Count(s[..|s| - 1], p) + (if p(s[|s| - 1]) then 1 else 0)
  }

  lemma {:induction false} CountAppend<T>(a: seq<T>, b: seq<T>, p: T -> bool)
    ensures Count(a + b, p) == Count(a, p) + Count(b, p)
    decreases |b|
  {
    if |b| == 0 {
      assert a + b == a;
    } else {
      var b' := b[..|b| - 1];
      assert (a + b)[..|a + b| - 1] == a + b';
      assert (a + b)[|a + b| - 1] == b[|b| - 1];
      CountAppend(a, b', p);
    }
  }

  /** Counting with a predicate implied by another never gives less. */
  lemma {:induction false} CountMonotone<T>(s: seq<T>, p: T -> bool, q: T -> bool)
    requires forall i :: 0 <= i < |s| ==> p(s[i]) ==> q(s[i])
    ensures Count(s, p) <= Count(s, q)
    decreases |s|
  {
    if |s| > 0 {
      CountMonotone(s[..|s| - 1], p, q);
    }
  }

  /** The indices, in increasing order, of the rows satisfying `p`. */
  function Matches<T>(s: seq<T>, p: T -> bool): (r: seq<nat>)
    ensures |r| == Count(s, p)
    ensures forall k :: 0 <= k < |r| ==> r[k] < |s| && p(s[r[k]])
    ensures forall k, l :: 0 <= k < l < |r| ==> r[k] < r[l]
    decreases |s|
  {
    if |s| == 0 then []
    else
      var prefix := s[..|s| - 1];
      var m := Matches(prefix, p);
      assert forall k :: 0 <= k < |m| ==> s[m[k]] == prefix[m[k]];
      if p(s[|s| - 1]) then m + [|s| - 1] else m
  }

  /** Every index whose row satisfies `p` is among the matches. */
  lemma {:induction false} MatchesComplete<T>(s: seq<T>, p: T -> bool)
    ensures forall i :: 0 <= i < |s| && p(s[i]) ==> i in Matches(s, p)
    decreases |s|
  {
    if |s| > 0 {
      var prefix := s[..|s| - 1];
      MatchesComplete(prefix, p);
      assert forall i :: 0 <= i < |prefix| ==> prefix[i] == s[i];
    }
  }

  /** What Django's `Model.objects.get(...)` does with a filter: raise
      `DoesNotExist`, return the single row, or raise `MultipleObjectsReturned`. */
  datatype Lookup = NoMatch | One(index: nat) | Many

  function Get<T>(s: seq<T>, p: T -> bool): (r: Lookup)
    ensures r == NoMatch <==> forall i :: 0 <= i < |s| ==> !p(s[i])
    ensures r.One? ==> r.index < |s| && p(s[r.index])
    ensures r.One? ==> forall i :: 0 <= i < |s| && p(s[i]) ==> i == r.index
    ensures r == Many <==> exists i, j :: 0 <= i < j < |s| && p(s[i]) && p(s[j])
  {
    var m := Matches(s, p);
    MatchesComplete(s, p);
    if |m| == 0 then NoMatch
    else if |m| == 1 then
      assert forall i :: 0 <= i < |s| && p(s[i]) ==> i == m[0] by {
        forall i | 0 <= i < |s| && p(s[i]) ensures i == m[0] {
          assert i in m;
        }
      }
      One(m[0])
    else
      assert m[0] < m[1] && p(s[m[0]]) && p(s[m[1]]);
      Many
  }
}
