/** The overall phase of a list of component statuses. */
module PhaseLaws {
  import opened Types
  import opened HelmApp

  /** The loop over the statuses that settles the phase. */
  method CalculateOverallPhase(deleting: bool, statuses: seq<ComponentStatus>) returns (phase: Phase)
    ensures phase == OverallPhase(deleting, statuses)
  {
    if |statuses| == 0 {
      return UNKNOWN;
    }
    if deleting {
      return DELETING;
    }
    var hasFailure, allDeployed := false, true;
    for i := 0 to |statuses|
      invariant hasFailure <==> exists s | s in statuses[..i] :: s.status == FAILED_STATUS
      invariant !hasFailure ==> (allDeployed <==> forall s | s in statuses[..i] :: s.status == DEPLOYED)
    {
      assert statuses[..i + 1] == statuses[..i] + [statuses[i]];
      if statuses[i].status == FAILED_STATUS {
        hasFailure := true;
      } else if statuses[i].status != DEPLOYED {
        allDeployed := false;
      }
    }
    assert statuses[..|statuses|] == statuses;
    phase := if hasFailure then FAILED else if allDeployed then SUCCEEDED else RECONCILING;
  }

  lemma SucceededIff(statuses: seq<ComponentStatus>)
    ensures OverallPhase(false, statuses) == SUCCEEDED <==>
      statuses != [] && forall s | s in statuses :: s.status == DEPLOYED
  {
    assert |DEPLOYED| != |FAILED_STATUS|;
    if statuses != [] { assert statuses[0] in statuses; }
  }

  lemma SomeFailed(statuses: seq<ComponentStatus>)
    requires forall s | s in statuses :: s.status == FAILED_STATUS
    ensures statuses != [] ==> exists s | s in statuses :: s.status == FAILED_STATUS
  {
    if statuses != [] { assert statuses[0] in statuses; }
  }

  /** How much a phase of a live object asks for attention. */
  function Severity(p: Phase): nat {
    match p
    case UNKNOWN => 0
    case SUCCEEDED => 1
    case RECONCILING => 2
    case FAILED => 3
    case DELETING => 4
  }

  function Join(p: Phase, q: Phase): Phase {
    if Severity(p) < Severity(q) then q else p
  }

  /** The phase of two lists together is the more severe of their phases. */
  lemma PhaseOfConcat(a: seq<ComponentStatus>, b: seq<ComponentStatus>)
    ensures OverallPhase(false, a + b) == Join(OverallPhase(false, a), OverallPhase(false, b))
  {
    assert |DEPLOYED| != |FAILED_STATUS|;
    assert forall s | s in a :: s in a + b;
    assert forall s | s in b :: s in a + b;
    if a != [] { assert a[0] in a; }
    if b != [] { assert b[0] in b; }
  }

  /** The order of the entries does not matter, even while deleting. */
  lemma PhaseOfPermutation(deleting: bool, a: seq<ComponentStatus>, b: seq<ComponentStatus>)
    requires multiset(a) == multiset(b)
    ensures OverallPhase(deleting, a) == OverallPhase(deleting, b)
  {
    assert forall s :: s in a <==> s in multiset(a);
    assert forall s :: s in b <==> s in multiset(b);
    assert |a| == |multiset(a)| && |b| == |multiset(b)|;
  }

  /** The five phases are told apart by the list and the deletion mark: UNKNOWN for the empty list even
      while deleting, then DELETING, then FAILED, and SUCCEEDED or RECONCILING for the rest. */
  lemma PhaseIff(deleting: bool, statuses: seq<ComponentStatus>)
    ensures var phase := OverallPhase(deleting, statuses);
      && (phase == UNKNOWN <==> statuses == [])
      && (phase == DELETING <==> statuses != [] && deleting)
      && (phase == FAILED <==> !deleting && exists s :: s in statuses && s.status == "failed")
      && (phase == SUCCEEDED <==> statuses != [] && !deleting && forall s | s in statuses :: s.status == "deployed")
      && (phase == RECONCILING <==>
            && !deleting && (forall s | s in statuses :: s.status != "failed")
            && exists s :: s in statuses && s.status != "deployed")
  {
    if !deleting { SucceededIff(statuses); }
  }
}
