/** The correlation records and the correlation manager's construction. The
    implant-decay and decay-gamma correlation passes have no bodies in the
    source and are not modelled; what is modelled is the beta-candidate record
    with its delayed-gamma tag, and the manager's initial state. */
module Correlation {
  import opened Wrappers
  import opened ClusterGeometry
  import TimeIndex
  import TreeManager
  import TimeRangeManager

  /** Whether a decay follows (forwards) or precedes (backwards) its implant. */
  datatype CorrelationType = Forwards | Backwards

  /** The rank of an accepted decay within one scan direction. */
  datatype BetaType = Candidate | Match | SecondMatch | ThirdMatch | TenthMatch

  /** Forward and backward match counts of one implant. */
  datatype ForwardBackwardPair = ForwardBackwardPair(forward: int, backward: int)

  /** An implant-decay pairing. The delayed-gamma tag is absent until a gamma
      energy is set; the source keeps it as a flag plus an energy that is only
      meaningful once the flag is set. */
  datatype BetaCandidateEvent = BetaCandidateEvent(
    correlationType: CorrelationType,
    betaType: BetaType,
    implantTime: nat,
    decayTime: nat,
    implantPositionX: real,
    implantPositionY: real,
    implantEnergy: real,
    implantClusterX: ClusterRange,
    implantClusterY: ClusterRange,
    decayPositionX: real,
    decayPositionY: real,
    decayEnergy: real,
    decayClusterX: ClusterRange,
    decayClusterY: ClusterRange,
    decaySpill: int,
    timediff: int,
    delayedGamma: Option<real>)
  {
    predicate DelayedGammaMatch() {
      delayedGamma.Some?
    }

    /** Records a matched gamma energy. There is no guard against an earlier
        match: a later call overwrites the energy. */
    function SetGammaParameters(gammaEnergy: real): (c: BetaCandidateEvent)
      ensures c.DelayedGammaMatch() && c.delayedGamma.value == gammaEnergy
      ensures c.(delayedGamma := delayedGamma) == this
    {
      this.(delayedGamma := Some(gammaEnergy))
    }

    /** The query as the source writes it: `lower_bound` and `upper_bound` of the
        known-energy set are both taken at `energy - gammaRange`, so they differ
        exactly when that single value is a known energy. */
    function HasMatchedGammaInRange(knownGammaSet: seq<real>, gammaRange: real): (matched: bool)
      requires StrictlyIncreasing(knownGammaSet)
      ensures matched <==> DelayedGammaMatch() && delayedGamma.value - gammaRange in knownGammaSet
    {
      if !DelayedGammaMatch() then false
      else
        var key := delayedGamma.value - gammaRange;
        var lo, hi := LowerBound(knownGammaSet, key), UpperBound(knownGammaSet, key);
        LowerBoundNotAboveUpperBound(knownGammaSet, key);
        assert lo < hi ==> knownGammaSet[lo] == key;
        assert key in knownGammaSet ==> lo < hi by {
          if key in knownGammaSet {
            var j :| 0 <= j < |knownGammaSet| && knownGammaSet[j] == key;
            assert lo <= j < hi;
          }
        }
        lo != hi
    }

    /** The evidently intended query: some known energy lies within
        `gammaRange` of the matched energy, found as the range between
        `lower_bound(energy - gammaRange)` and `upper_bound(energy + gammaRange)`. */
    function HasMatchedGammaInBand(knownGammaSet: seq<real>, gammaRange: real): (matched: bool)
      requires StrictlyIncreasing(knownGammaSet)
      ensures matched <==> (DelayedGammaMatch() &&
        exists i :: 0 <= i < |knownGammaSet| && InBand(knownGammaSet[i], delayedGamma.value, gammaRange))
    {
      if !DelayedGammaMatch() then false
      else
        var lo := LowerBound(knownGammaSet, delayedGamma.value - gammaRange);
        var hi := UpperBound(knownGammaSet, delayedGamma.value + gammaRange);
        assert lo < hi ==> InBand(knownGammaSet[lo], delayedGamma.value, gammaRange);
        lo < hi
    }
  }

  predicate InBand(g: real, energy: real, gammaRange: real) {
    energy - gammaRange <= g && g <= energy + gammaRange
  }

  /** A `std::set<double>` iterates in strictly increasing order. */
  predicate StrictlyIncreasing(s: seq<real>) {
    forall i, j :: 0 <= i < j < |s| ==> s[i] < s[j]
  }

  /** Position of the first element not below `key`. */
  function LowerBound(s: seq<real>, key: real): (i: nat)
    requires StrictlyIncreasing(s)
    ensures i <= |s|
    ensures forall j :: 0 <= j < i ==> s[j] < key
    ensures forall j :: i <= j < |s| ==> key <= s[j]
  {
    if |s| == 0 || key <= s[0] then 0
    else 1 + LowerBound(s[1..], key)
  }

  /** Position of the first element above `key`. */
  function UpperBound(s: seq<real>, key: real): (i: nat)
    requires StrictlyIncreasing(s)
    ensures i <= |s|
    ensures forall j :: 0 <= j < i ==> s[j] <= key
    ensures forall j :: i <= j < |s| ==> key < s[j]
  {
    if |s| == 0 || key < s[0] then 0
    else 1 + UpperBound(s[1..], key)
  }

  /** For one key, the lower bound never lies past the upper bound. */
  lemma {:induction false} LowerBoundNotAboveUpperBound(s: seq<real>, key: real)
    requires StrictlyIncreasing(s)
    ensures LowerBound(s, key) <= UpperBound(s, key)
    decreases |s|
  {
    if |s| > 0 && s[0] < key {
      LowerBoundNotAboveUpperBound(s[1..], key);
    }
  }

  /** A candidate as stage one creates it: no delayed gamma yet. */
  function NewBetaCandidate(
    correlationType: CorrelationType, betaType: BetaType, implantTime: nat, decayTime: nat,
    implantPositionX: real, implantPositionY: real, implantEnergy: real,
    implantClusterX: ClusterRange, implantClusterY: ClusterRange,
    decayPositionX: real, decayPositionY: real, decayEnergy: real,
    decayClusterX: ClusterRange, decayClusterY: ClusterRange,
    decaySpill: int, timediff: int): (c: BetaCandidateEvent)
    ensures !c.DelayedGammaMatch()
    ensures forall known, range | StrictlyIncreasing(known) :: !c.HasMatchedGammaInRange(known, range)
  {
    BetaCandidateEvent(correlationType, betaType, implantTime, decayTime,
                       implantPositionX, implantPositionY, implantEnergy, implantClusterX, implantClusterY,
                       decayPositionX, decayPositionY, decayEnergy, decayClusterX, decayClusterY,
                       decaySpill, timediff, None)
  }

  /** The stage-one result for one gated implant. */
  datatype ImplantDecayCorrelationEvent = ImplantDecayCorrelationEvent(
    implantDecayMatchMultiplicity: ForwardBackwardPair,
    betaCandidateEventVector: seq<BetaCandidateEvent>)

  /** The correlation manager's state. The event maps are only read; the
      deadtime window manager and the correlated-event map are filled by the
      correlation passes. */
  datatype CorrelationManager = CorrelationManager(
    implantEventMap: TimeIndex.TimeMap<TreeManager.ImplantEvent>,
    gatedImplantEventMap: TimeIndex.TimeMap<TreeManager.ImplantEvent>,
    decayEventMap: TimeIndex.TimeMap<TreeManager.DecayEvent>,
    germaniumEventMap: TimeIndex.TimeMap<TreeManager.GermaniumEvent>,
    deadtimeWindowManager: Option<TimeRangeManager.Manager>,
    implantDecayCorrelatedEventMap: TimeIndex.TimeMap<ImplantDecayCorrelationEvent>)

  /** Construction records the four event maps and runs nothing: no deadtime
      window exists and no implant has been correlated. */
  function NewCorrelationManager(eventMaps: TreeManager.EventMaps): (cm: CorrelationManager)
    ensures cm.implantEventMap == eventMaps.implant && cm.gatedImplantEventMap == eventMaps.gatedImplant
    ensures cm.decayEventMap == eventMaps.decay && cm.germaniumEventMap == eventMaps.germanium
    ensures cm.deadtimeWindowManager.None?
    ensures |cm.implantDecayCorrelatedEventMap| == 0
  {
    CorrelationManager(eventMaps.implant, eventMaps.gatedImplant, eventMaps.decay, eventMaps.germanium, None, [])
  }

  // ---------------------------------------------------------------------------
  // Properties
  // ---------------------------------------------------------------------------

  /** The last gamma energy set wins, and the match flag stays set. */
  lemma SetGammaLastWriteWins(c: BetaCandidateEvent, e1: real, e2: real)
    ensures c.SetGammaParameters(e1).SetGammaParameters(e2) == c.SetGammaParameters(e2)
    ensures c.SetGammaParameters(e1).SetGammaParameters(e2).delayedGamma == Some(e2)
  {
  }

  /** Without a set gamma the query is false for every known set and range. */
  lemma NoGammaNoMatch(c: BetaCandidateEvent, known: seq<real>, gammaRange: real)
    requires StrictlyIncreasing(known)
    requires !c.DelayedGammaMatch()
    ensures !c.HasMatchedGammaInRange(known, gammaRange)
    ensures !c.HasMatchedGammaInBand(known, gammaRange)
  {
  }

  /** As written, the query accepts only an energy exactly `gammaRange` above a
      known line; the intended band query accepts every energy within the range. */
  lemma GammaRangeQueryUsesOneKey()
    ensures StrictlyIncreasing([100.0])
    ensures
      var c := NewBetaCandidate(Forwards, Match, 0, 0, 0.0, 0.0, 0.0, ClusterRange(0, 1, 0), ClusterRange(0, 1, 0),
                                0.0, 0.0, 0.0, ClusterRange(0, 1, 0), ClusterRange(0, 1, 0), 0, 0);
      && !c.SetGammaParameters(100.5).HasMatchedGammaInRange([100.0], 1.0)
      && c.SetGammaParameters(100.5).HasMatchedGammaInBand([100.0], 1.0)
      && !c.SetGammaParameters(100.0).HasMatchedGammaInRange([100.0], 1.0)
      && c.SetGammaParameters(101.0).HasMatchedGammaInRange([100.0], 1.0)
  {
    var c := NewBetaCandidate(Forwards, Match, 0, 0, 0.0, 0.0, 0.0, ClusterRange(0, 1, 0), ClusterRange(0, 1, 0),
                              0.0, 0.0, 0.0, ClusterRange(0, 1, 0), ClusterRange(0, 1, 0), 0, 0);
    assert InBand([100.0][0], 100.5, 1.0);
  }

  /** With a non-negative range, an exact hit of the as-written query is also a hit of the band query. */
  lemma AsWrittenHitIsBandHit(c: BetaCandidateEvent, known: seq<real>, gammaRange: real)
    requires StrictlyIncreasing(known)
    requires gammaRange >= 0.0
    ensures c.HasMatchedGammaInRange(known, gammaRange) ==> c.HasMatchedGammaInBand(known, gammaRange)
  {
    if c.HasMatchedGammaInRange(known, gammaRange) {
      var i :| 0 <= i < |known| && known[i] == c.delayedGamma.value - gammaRange;
      assert InBand(known[i], c.delayedGamma.value, gammaRange);
    }
  }
}
