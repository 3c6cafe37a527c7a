/** Rounds of the main loop: which pads a round visits. */
module PadRounds {
  import opened PadScan

  function VisitedWith(t: State, e: Event, v: seq<nat>): seq<nat> {
    if e.EndRound? then []
    else if e.Latch? && !t.at.Between? then v + [t.at.pad]
    else v
  }

  /** The pads latched since the last round ended. */
  function Visited(s: State, es: seq<Event>): seq<nat>
    requires Shaped(s) && Possible(s, es)
    decreases |es|
  {
    if es == [] then [] else VisitedWith(Run(s, es), Last(es), Visited(s, Front(es)))
  }

  /** No calibration has come since the last round ended. */
  predicate Undisturbed(es: seq<Event>) {
    es == [] || Last(es).EndRound? || (!Last(es).Calibrated? && Undisturbed(Front(es)))
  }

  /** How many pads of the order the loop has taken up. */
  function Taken(s: State): nat {
    s.index + if s.at.Between? then 0 else 1
  }

  lemma TakenStep(s: State, e: Event)
    requires Shaped(s) && Enabled(s, e)
    ensures var t := Next(s, e);
      && (e.Latch? ==> Taken(t) == Taken(s) + 1 <= PADS && t.at == Latched(s.order[Taken(s)]))
      && (e.EndRound? ==> Taken(s) == PADS && Taken(t) == 0)
      && (!e.Latch? && !e.EndRound? ==> Taken(t) == Taken(s))
      && (!e.Calibrated? ==> t.order == s.order)
  {
  }

  lemma RoundStep(s: State, e: Event, v: seq<nat>, undisturbed: bool)
    requires Shaped(s) && Enabled(s, e) && Taken(s) <= PADS && |v| == Taken(s)
    requires undisturbed ==> v == s.order[..Taken(s)]
    ensures var t := Next(s, e); var w := VisitedWith(t, e, v);
      && Taken(t) <= PADS && |t.order| == PADS && |w| == Taken(t)
      && (e.EndRound? || (undisturbed && !e.Calibrated?) ==> w == t.order[..Taken(t)])
  {
    TakenStep(s, e);
    NextShaped(s, e);
    if e.Latch? {
      assert s.order[..Taken(s) + 1] == s.order[..Taken(s)] + [s.order[Taken(s)]];
    }
  }

  /** Unless it is calibrated in the middle, a round goes through the scan order from its start,
      whatever the readings and interrupts are. */
  lemma {:induction false} RoundFollowsOrder(s: State, es: seq<Event>)
    requires Initial(s) && Possible(s, es)
    ensures var t := Run(s, es);
      && Taken(t) <= PADS
      && |Visited(s, es)| == Taken(t)
      && (Undisturbed(es) ==> Visited(s, es) == t.order[..Taken(t)])
    decreases |es|
  {
    if es != [] {
      RoundFollowsOrder(s, Front(es));
      RoundStep(Run(s, Front(es)), Last(es), Visited(s, Front(es)), Undisturbed(Front(es)));
    }
  }

  /** A round that ends has visited 48 pads; without a calibration in it these are all pads, each
      of them exactly once. */
  lemma FullRound(s: State, es: seq<Event>, p: nat)
    requires Initial(s) && Possible(s, es) && Enabled(Run(s, es), EndRound) && p < PADS
    ensures |Visited(s, es)| == PADS
    ensures Undisturbed(es) ==> Visited(s, es) == Run(s, es).order && multiset(Visited(s, es))[p] == 1
  {
    RoundFollowsOrder(s, es);
    if Undisturbed(es) {
      var order := Run(s, es).order;
      assert order[..PADS] == order;
      AllFound(order, p);
    }
  }

  /** 48 different numbers below 48: each of them is there, once. */
  lemma AllFound(order: seq<nat>, p: nat)
    requires IsScanOrder(order) && p < PADS
    ensures multiset(order)[p] == 1
  {
    InOrder(order, p);
    OnlyOnce(order, p);
  }

  lemma InOrder(order: seq<nat>, p: nat)
    requires IsScanOrder(order) && p < PADS
    ensures p in order
  {
    Distinct(order);
    SubsetOfSameSize(Numbers(order), Below(PADS));
    assert p in Numbers(order);
  }

  function Numbers(order: seq<nat>): set<nat> {
    set q | q in order
  }

  function Below(n: nat): (below: set<nat>)
    ensures |below| == n && forall q: nat :: q in below <==> q < n
  {
    if n == 0 then {}
    else Below(n - 1) + {n - 1}
  }

  lemma {:induction false} Distinct(order: seq<nat>)
    requires forall i, j | 0 <= i < j < |order| :: order[i] != order[j]
    ensures |Numbers(order)| == |order|
  {
    if order != [] {
      var front, last := order[..|order| - 1], order[|order| - 1];
      Distinct(front);
      assert last !in Numbers(front);
      assert Numbers(order) == Numbers(front) + {last};
    }
  }

  lemma SubsetOfSameSize(a: set<nat>, b: set<nat>)
    requires a <= b && |a| == |b|
    ensures a == b
  {
    assert b == a + (b - a);
    assert |b| == |a| + |b - a|;
  }

  lemma {:induction false} OnlyOnce(order: seq<nat>, p: nat)
    requires forall i, j | 0 <= i < j < |order| :: order[i] != order[j]
    ensures multiset(order)[p] == if p in order then 1 else 0
  {
    if order != [] {
      var front := order[..|order| - 1];
      OnlyOnce(front, p);
      assert order == front + [order[|order| - 1]];
    }
  }
}
