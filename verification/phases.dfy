/** Light phases of a signalised intersection.

    Each CityFlow light phase becomes one SUMO phase whose state has one
    character per link index: `G` when the link index belongs to a road link
    that has right of way in that phase, `r` otherwise. The state depends on
    that phase alone. */
module Phases {
  import opened Outcomes
  import CF = CityFlow
  import opened Sumo

  /** Every link index named by a group is a valid position of a state of
      length `n`. */
  predicate GroupsBelow(groups: seq<seq<int>>, n: nat) {
    forall r, k :: 0 <= r < |groups| && k in groups[r] ==> 0 <= k < n
  }

  /** Every road-link index listed in `available` names one of `count` road links. */
  predicate InRange(available: seq<int>, count: nat) {
    forall i :: 0 <= i < |available| ==> 0 <= available[i] < count
  }

  /** Link index `k` belongs to some road link listed in `available`. */
  predicate Granted(groups: seq<seq<int>>, available: seq<int>, k: int) {
    exists i :: 0 <= i < |available| && 0 <= available[i] < |groups| && k in groups[available[i]]
  }

  /** Entry `i` of `available` is the first one that names none of `count`
      road links. */
  predicate FirstUnknown(available: seq<int>, count: nat, i: int) {
    && 0 <= i < |available|
    && !(0 <= available[i] < count)
    && InRange(available[..i], count)
  }

  /** `e` is the error raised for `available` over `count` road links: the
      lookup of its first entry that names no road link. */
  predicate RejectedWith(junction: string, available: seq<int>, count: nat, e: Error) {
    exists i :: 0 <= i < |available| && FirstUnknown(available, count, i) && e == UnknownRoadLink(junction, available[i])
  }

  /** Light phase `p` is the first of `lps` naming a road link outside
      `count`. */
  predicate FirstRejectedPhase(lps: seq<CF.LightPhase>, count: nat, p: int) {
    && 0 <= p < |lps|
    && !InRange(lps[p].availableRoadLinks, count)
    && forall p' :: 0 <= p' < p ==> InRange(lps[p'].availableRoadLinks, count)
  }

  /** `e` is the error raised by the first rejected light phase of `lps`. */
  predicate PhasesRejectedWith(junction: string, lps: seq<CF.LightPhase>, count: nat, e: Error) {
    exists p :: 0 <= p < |lps| && FirstRejectedPhase(lps, count, p) && RejectedWith(junction, lps[p].availableRoadLinks, count, e)
  }

  /** Sets the character at every index of `ks` to `G`. */
  function Paint(state: string, ks: seq<int>): (r: string)
    requires forall k :: k in ks ==> 0 <= k < |state|
    ensures |r| == |state|
    ensures forall k :: 0 <= k < |r| ==> r[k] == (if k in ks then 'G' else state[k])
    decreases |ks|
  {
    if |ks| == 0 then state
    else
      assert ks[0] in ks;
      assert forall k :: k in ks[1..] ==> k in ks;
      Paint(state[ks[0] := 'G'], ks[1..])
  }

  lemma GrantedStep(groups: seq<seq<int>>, available: seq<int>, k: int)
    requires 0 < |available| && 0 <= available[0] < |groups|
    ensures Granted(groups, available, k) <==>
              k in groups[available[0]] || Granted(groups, available[1..], k)
  {
    if Granted(groups, available[1..], k) {
      var i :| 0 <= i < |available[1..]| && 0 <= available[1..][i] < |groups| && k in groups[available[1..][i]];
      assert available[i + 1] == available[1..][i];
    }
    if Granted(groups, available, k) && k !in groups[available[0]] {
      var i :| 0 <= i < |available| && 0 <= available[i] < |groups| && k in groups[available[i]];
      assert available[1..][i - 1] == available[i];
    }
  }

  /** The inner loops over `availableRoadLinks`: every link index of every
      listed road link turns `G`; an index that is not a road link aborts at
      the first such entry. */
  function GrantRoadLinks(junction: string, state: string, groups: seq<seq<int>>, available: seq<int>): (r: Result<string>)
    requires GroupsBelow(groups, |state|)
    ensures r.Ok? <==> InRange(available, |groups|)
    ensures r.Ok? ==> |r.value| == |state|
    ensures r.Ok? ==> forall k :: 0 <= k < |state| ==>
              r.value[k] == (if Granted(groups, available, k) then 'G' else state[k])
    decreases |available|
  {
    if |available| == 0 then Ok(state)
    else if !(0 <= available[0] < |groups|) then
      Fail(UnknownRoadLink(junction, available[0]))
    else
      var painted := Paint(state, groups[available[0]]);
      var r := GrantRoadLinks(junction, painted, groups, available[1..]);
      assert forall k :: Granted(groups, available, k) <==>
               k in groups[available[0]] || Granted(groups, available[1..], k) by {
        forall k
          ensures Granted(groups, available, k) <==>
                    k in groups[available[0]] || Granted(groups, available[1..], k)
        {
          GrantedStep(groups, available, k);
        }
      }
      r
  }

  /** On failure the loop has aborted at the first entry that is not a road
      link of the intersection, reporting that entry. */
  lemma {:induction false} GrantRoadLinksFailure(junction: string, state: string, groups: seq<seq<int>>, available: seq<int>)
    requires GroupsBelow(groups, |state|)
    ensures var r := GrantRoadLinks(junction, state, groups, available);
            r.Fail? ==>
              exists i :: (0 <= i < |available|
                           && !(0 <= available[i] < |groups|)
                           && r.error == UnknownRoadLink(junction, available[i])
                           && InRange(available[..i], |groups|))
    decreases |available|
  {
    var r := GrantRoadLinks(junction, state, groups, available);
    if |available| > 0 {
      if !(0 <= available[0] < |groups|) {
        assert InRange(available[..0], |groups|);
      } else {
        var painted := Paint(state, groups[available[0]]);
        assert r == GrantRoadLinks(junction, painted, groups, available[1..]);
        GrantRoadLinksFailure(junction, painted, groups, available[1..]);
        if r.Fail? {
          var i :| 0 <= i < |available[1..]|
                   && !(0 <= available[1..][i] < |groups|)
                   && r.error == UnknownRoadLink(junction, available[1..][i])
                   && InRange(available[1..][..i], |groups|);
          assert available[..i + 1] == [available[0]] + available[1..][..i];
        }
      }
    }
  }

  /** One SUMO phase from one light phase over `n` link indices. */
  function TranslatePhase(junction: string, n: nat, groups: seq<seq<int>>, lp: CF.LightPhase): (r: Result<Phase>)
    requires GroupsBelow(groups, n)
    ensures r.Ok? <==> InRange(lp.availableRoadLinks, |groups|)
    ensures r.Ok? ==> r.value.duration == lp.time
    ensures r.Ok? ==> |r.value.state| == n
    ensures r.Ok? ==> forall k :: 0 <= k < n ==>
              r.value.state[k] == (if Granted(groups, lp.availableRoadLinks, k) then 'G' else 'r')
    ensures r.Fail? ==> r.error.UnknownRoadLink? && r.error.junction == junction
    ensures r.Fail? ==> RejectedWith(junction, lp.availableRoadLinks, |groups|, r.error)
  {
    var dark := seq(n, _ => 'r');
    GrantRoadLinksFailure(junction, dark, groups, lp.availableRoadLinks);
    var state :- GrantRoadLinks(junction, dark, groups, lp.availableRoadLinks);
    Ok(Phase(lp.time, state))
  }

  /** The loop over `lightphases`: one phase per light phase, in order; the
      first light phase that names an unknown road link aborts. */
  function TranslatePhases(junction: string, n: nat, groups: seq<seq<int>>, lps: seq<CF.LightPhase>): (r: Result<seq<Phase>>)
    requires GroupsBelow(groups, n)
    ensures r.Ok? <==> forall p :: 0 <= p < |lps| ==> InRange(lps[p].availableRoadLinks, |groups|)
    ensures r.Ok? ==> |r.value| == |lps|
    ensures r.Ok? ==> forall p :: 0 <= p < |lps| ==> TranslatePhase(junction, n, groups, lps[p]) == Ok(r.value[p])
    ensures r.Fail? ==> r.error.UnknownRoadLink? && r.error.junction == junction
    ensures r.Fail? ==> PhasesRejectedWith(junction, lps, |groups|, r.error)
    decreases |lps|
  {
    if |lps| == 0 then Ok([])
    else
      var first := TranslatePhase(junction, n, groups, lps[0]);
      if first.Fail? then
        assert FirstRejectedPhase(lps, |groups|, 0);
        Fail(first.error)
      else
        var rest := TranslatePhases(junction, n, groups, lps[1..]);
        assert forall p :: 1 <= p < |lps| ==> lps[p] == lps[1..][p - 1];
        if rest.Fail? then
          var p :| FirstRejectedPhase(lps[1..], |groups|, p)
                   && RejectedWith(junction, lps[1..][p].availableRoadLinks, |groups|, rest.error);
          assert FirstRejectedPhase(lps, |groups|, p + 1);
          Fail(rest.error)
        else
          Ok([first.value] + rest.value)
  }
}
