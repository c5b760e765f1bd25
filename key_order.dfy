/** The order in which a `std::map` keyed by level index is walked: ascending keys. */
module KeyOrder {

  predicate StrictlyIncreasing(r: seq<nat>) {
    forall i, j :: 0 <= i < j < |r| ==> r[i] < r[j]
  }

  lemma {:induction false} Least(s: set<nat>) returns (m: nat)
    requires s != {}
    ensures m in s && forall k :: k in s ==> m <= k
    decreases |s|
  {
    var x :| x in s;
    if s == {x} {
      m := x;
    } else {
      var rest := s - {x};
      var r := Least(rest);
      m := if x < r then x else r;
      forall k | k in s
        ensures m <= k
      {
        if k != x {
          assert k in rest;
        }
      }
    }
  }

  lemma MinExists(s: set<nat>)
    requires s != {}
    ensures exists m :: m in s && forall k :: k in s ==> m <= k
  {
    var m := Least(s);
  }

  /** The smallest key of a non-empty key set. */
  ghost function MinOf(s: set<nat>): (m: nat)
    requires s != {}
    ensures m in s && forall k :: k in s ==> m <= k
  {
    MinExists(s);
    var m :| m in s && forall k :: k in s ==> m <= k; m
  }

  /** The keys of `s` in the order a `std::map` visits them. */
  ghost function Ascending(s: set<nat>): (r: seq<nat>)
    ensures |r| == |s|
    ensures StrictlyIncreasing(r)
    ensures forall k :: k in r <==> k in s
    decreases |s|
  {
    if s == {} then []
    else
      var m := MinOf(s);
      var rest := Ascending(s - {m});
      assert forall i :: 0 <= i < |rest| ==> rest[i] in s - {m};
      [m] + rest
  }

  /** Any key with nothing smaller in `s` is the one a map walk visits first. */
  lemma AscendingStartsAtMin(s: set<nat>, k: nat)
    requires k in s && forall j :: j in s ==> k <= j
    ensures Ascending(s) == [k] + Ascending(s - {k})
  {
    assert MinOf(s) == k;
  }
}
