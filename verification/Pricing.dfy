/**
 Hourly prices of instance types: the billing calls of one preset, and the
 goroutines that price many presets into one map (GetPrices).
 */
module Pricing {
  import opened Wrappers

  /** A platform with one of its presets; `shape` stands for everything else about it. */
  datatype Preset = Preset(platform: string, preset: string, preemptible: bool, shape: string)
  {
    function InstanceTypeName(): string { platform + "-" + preset }
  }

  datatype PriceKey = PriceKey(platform: string, preset: string, osDiskSizeGiB: int)

  datatype Prices = Prices(onDemand: real, preemptible: real, failed: bool)

  const DEFAULT_PRICE: real := 1000.0

  /** One billing call: it fails, or answers a cost that may be missing or unreadable. */
  datatype Quote = Failure | Cost(hourly: Option<real>)

  /** The billing calculator: preset, whether priced as preemptible. */
  type Billing = (Preset, bool) -> Quote

  function ExtractHourlyPrice(cost: Option<real>): real {
    if cost.Some? then cost.value else DEFAULT_PRICE
  }

  function KeyOf(p: Preset, disk: int): PriceKey {
    PriceKey(p.platform, p.preset, disk)
  }

  /** What pricing one preset alone comes to. */
  function PriceOf(p: Preset, bill: Billing): Prices {
    match bill(p, false)
    case Failure => Prices(DEFAULT_PRICE, DEFAULT_PRICE, true)
    case Cost(hourly) =>
      var onDemand := ExtractHourlyPrice(hourly);
      if !p.preemptible then Prices(onDemand, DEFAULT_PRICE, false)
      else
        match bill(p, true)
        case Failure => Prices(onDemand, DEFAULT_PRICE, true)
        case Cost(hourly') => Prices(onDemand, ExtractHourlyPrice(hourly'), false)
  }

  /** A cost that is missing or unreadable counts as the default, written out. */
  ghost predicate CostIs(hourly: Option<real>, price: real) {
    match hourly
    case Some(x) => price == x
    case None => price == 1000.0
  }

  /** What the billing replies make of one preset; the second call is made for preemptible ones only. */
  ghost predicate PricedBy(p: Preset, bill: Billing, entry: Prices) {
    && (bill(p, false).Cost? ==> CostIs(bill(p, false).hourly, entry.onDemand))
    && (bill(p, false).Failure? ==> entry.onDemand == 1000.0)
    && (if p.preemptible && bill(p, false).Cost? && bill(p, true).Cost? then CostIs(bill(p, true).hourly, entry.preemptible)
        else entry.preemptible == 1000.0)
    && (entry.failed <==> bill(p, false).Failure? || (p.preemptible && bill(p, true).Failure?))
  }

  /** The replies determine the price. */
  lemma PriceOfIff(p: Preset, bill: Billing, entry: Prices)
    ensures PricedBy(p, bill, entry) <==> entry == PriceOf(p, bill)
  {}

  /** The map a sequential loop over the presets would build. */
  function SequentialPrices(presets: seq<Preset>, disk: int, bill: Billing): map<PriceKey, Prices> {
    if presets == [] then map[]
    else
      var p := presets[|presets| - 1];
      SequentialPrices(presets[..|presets| - 1], disk, bill)[KeyOf(p, disk) := PriceOf(p, bill)]
  }

  ghost predicate DistinctKeys(presets: seq<Preset>, disk: int) {
    forall i, j :: 0 <= i < j < |presets| ==> KeyOf(presets[i], disk) != KeyOf(presets[j], disk)
  }

  /** One entry per key; where presets of one key are priced alike, it is that price. */
  lemma {:induction false} SequentialPricesAt(presets: seq<Preset>, disk: int, bill: Billing, p: Preset)
    ensures KeyOf(p, disk) in SequentialPrices(presets, disk, bill) <==>
            exists i :: 0 <= i < |presets| && KeyOf(presets[i], disk) == KeyOf(p, disk)
    ensures KeyOf(p, disk) in SequentialPrices(presets, disk, bill) &&
            (forall i :: 0 <= i < |presets| && KeyOf(presets[i], disk) == KeyOf(p, disk) ==>
                         PriceOf(presets[i], bill) == PriceOf(p, bill))
            ==> SequentialPrices(presets, disk, bill)[KeyOf(p, disk)] == PriceOf(p, bill)
  {
    if presets != [] {
      var init, last := presets[..|presets| - 1], presets[|presets| - 1];
      SequentialPricesAt(init, disk, bill, p);
      forall i | 0 <= i < |init| ensures init[i] == presets[i] {}
    }
  }

  lemma {:induction false} SequentialKeys(presets: seq<Preset>, disk: int, bill: Billing)
    ensures forall k :: k in SequentialPrices(presets, disk, bill) ==>
              exists i :: 0 <= i < |presets| && KeyOf(presets[i], disk) == k
  {
    if presets != [] {
      var init := presets[..|presets| - 1];
      SequentialKeys(init, disk, bill);
      forall k | k in SequentialPrices(init, disk, bill)
        ensures exists i :: 0 <= i < |presets| && KeyOf(presets[i], disk) == k
      {
        var i :| 0 <= i < |init| && KeyOf(init[i], disk) == k;
        assert KeyOf(presets[i], disk) == k;
      }
    }
  }

  // ---- The goroutines ----

  const MAX_CONCURRENT_PRICE_REQUESTS: nat := 10

  /** Where the goroutine of one preset stands. */
  datatype Phase =
    | Waiting
    | AskingOnDemand
    | AskingPreemptible(onDemand: real)
    | Storing(entry: Prices)
    | Finished

  datatype Fan = Fan(phases: seq<Phase>, prices: map<PriceKey, Prices>)

  /** Goroutines are started in order; each then takes its own steps in any interleaving. */
  datatype Move = Launch(i: nat) | OnDemandReply(i: nat) | PreemptibleReply(i: nat) | Store(i: nat)

  function Running(phases: seq<Phase>): set<nat> {
    set i: nat | i < |phases| && !phases[i].Waiting? && !phases[i].Finished?
  }

  function Initial(presets: seq<Preset>): Fan {
    Fan(seq(|presets|, _ => Waiting), map[])
  }

  predicate Enabled(s: Fan, m: Move) {
    && m.i < |s.phases|
    && match m
       case Launch(i) =>
         && s.phases[i].Waiting?
         && (forall j :: 0 <= j < i ==> !s.phases[j].Waiting?)
         && |Running(s.phases)| < MAX_CONCURRENT_PRICE_REQUESTS
       case OnDemandReply(i) => s.phases[i].AskingOnDemand?
       case PreemptibleReply(i) => s.phases[i].AskingPreemptible?
       case Store(i) => s.phases[i].Storing?
  }

  function MoveOn(presets: seq<Preset>, disk: int, bill: Billing, s: Fan, m: Move): Fan
    requires |presets| == |s.phases| && Enabled(s, m)
  {
    var p := presets[m.i];
    match m
    case Launch(i) => s.(phases := s.phases[i := AskingOnDemand])
    case OnDemandReply(i) =>
      (match bill(p, false)
       case Failure => s.(phases := s.phases[i := Storing(Prices(DEFAULT_PRICE, DEFAULT_PRICE, true))])
       case Cost(hourly) =>
         var onDemand := ExtractHourlyPrice(hourly);
         s.(phases := s.phases[i := if p.preemptible then AskingPreemptible(onDemand)
                                    else Storing(Prices(onDemand, DEFAULT_PRICE, false))]))
    case PreemptibleReply(i) =>
      var onDemand := s.phases[i].onDemand;
      (match bill(p, true)
       case Failure => s.(phases := s.phases[i := Storing(Prices(onDemand, DEFAULT_PRICE, true))])
       case Cost(hourly) =>
         s.(phases := s.phases[i := Storing(Prices(onDemand, ExtractHourlyPrice(hourly), false))]))
    case Store(i) =>
      Fan(s.phases[i := Finished], s.prices[KeyOf(p, disk) := s.phases[i].entry])
  }

  /** A run from the start, whatever the order of moves. */
  ghost predicate FanRun(presets: seq<Preset>, disk: int, bill: Billing, states: seq<Fan>, moves: seq<Move>) {
    && |states| == |moves| + 1
    && states[0] == Initial(presets)
    && forall n :: 0 <= n < |moves| ==>
         && |states[n].phases| == |presets| && Enabled(states[n], moves[n])
         && states[n + 1] == MoveOn(presets, disk, bill, states[n], moves[n])
  }

  ghost predicate PhaseRight(p: Preset, bill: Billing, phase: Phase) {
    match phase
    case AskingPreemptible(onDemand) =>
      p.preemptible && bill(p, false).Cost? && onDemand == ExtractHourlyPrice(bill(p, false).hourly)
    case Storing(entry) => entry == PriceOf(p, bill)
    case _ => true
  }

  ghost predicate StoredFor(presets: seq<Preset>, disk: int, bill: Billing, s: Fan, k: PriceKey, i: int) {
    && 0 <= i < |presets| == |s.phases| && s.phases[i].Finished?
    && KeyOf(presets[i], disk) == k && k in s.prices && s.prices[k] == PriceOf(presets[i], bill)
  }

  ghost predicate FanInv(presets: seq<Preset>, disk: int, bill: Billing, s: Fan) {
    && |s.phases| == |presets|
    && (forall i :: 0 <= i < |presets| ==> PhaseRight(presets[i], bill, s.phases[i]))
    && (forall i :: 0 <= i < |presets| && s.phases[i].Finished? ==> KeyOf(presets[i], disk) in s.prices)
    && (forall k :: k in s.prices ==> exists i :: StoredFor(presets, disk, bill, s, k, i))
    && |Running(s.phases)| <= MAX_CONCURRENT_PRICE_REQUESTS
  }

  lemma RunningAfter(phases: seq<Phase>, i: nat, phase: Phase)
    requires i < |phases|
    ensures var after := phases[i := phase];
            && (!phase.Waiting? && !phase.Finished? ==> Running(after) == Running(phases) + {i})
            && (phase.Finished? ==> Running(after) == Running(phases) - {i})
            && |Running(phases) + {i}| <= |Running(phases)| + 1
            && |Running(phases) - {i}| <= |Running(phases)|
            && (i in Running(phases) ==> Running(phases) + {i} == Running(phases))
  {}

  lemma MoveKeepsPhaseRight(presets: seq<Preset>, disk: int, bill: Billing, s: Fan, m: Move)
    requires |s.phases| == |presets| && Enabled(s, m)
    requires PhaseRight(presets[m.i], bill, s.phases[m.i])
    ensures var s' := MoveOn(presets, disk, bill, s, m);
            && |s'.phases| == |presets| && s'.phases == s.phases[m.i := s'.phases[m.i]]
            && PhaseRight(presets[m.i], bill, s'.phases[m.i])
            && (s'.phases[m.i].Finished? <==> m.Store?) && !s'.phases[m.i].Waiting?
            && (s.phases[m.i].Waiting? <==> m.Launch?)
            && s'.prices == (if m.Store? then s.prices[KeyOf(presets[m.i], disk) := PriceOf(presets[m.i], bill)]
                             else s.prices)
  {}

  lemma MoveKeepsInv(presets: seq<Preset>, disk: int, bill: Billing, s: Fan, m: Move)
    requires FanInv(presets, disk, bill, s) && Enabled(s, m)
    ensures FanInv(presets, disk, bill, MoveOn(presets, disk, bill, s, m))
  {
    var s' := MoveOn(presets, disk, bill, s, m);
    MoveKeepsPhaseRight(presets, disk, bill, s, m);
    MoveKeepsStored(presets, disk, bill, s, s', m.i);
    RunningAfter(s.phases, m.i, s'.phases[m.i]);
  }

  lemma MoveKeepsStored(presets: seq<Preset>, disk: int, bill: Billing, s: Fan, s': Fan, i: nat)
    requires FanInv(presets, disk, bill, s)
    requires i < |presets| == |s'.phases| && s'.phases == s.phases[i := s'.phases[i]] && !s.phases[i].Finished?
    requires s'.prices == if s'.phases[i].Finished? then s.prices[KeyOf(presets[i], disk) := PriceOf(presets[i], bill)]
                          else s.prices
    ensures forall j :: 0 <= j < |presets| && s'.phases[j].Finished? ==> KeyOf(presets[j], disk) in s'.prices
    ensures forall k :: k in s'.prices ==> exists j :: StoredFor(presets, disk, bill, s', k, j)
  {
    forall k | k in s'.prices
      ensures exists j :: StoredFor(presets, disk, bill, s', k, j)
    {
      if s'.phases[i].Finished? && k == KeyOf(presets[i], disk) {
        assert StoredFor(presets, disk, bill, s', k, i);
      } else {
        var j :| StoredFor(presets, disk, bill, s, k, j);
        assert StoredFor(presets, disk, bill, s', k, j);
      }
    }
  }

  lemma {:induction false} FanRunInv(presets: seq<Preset>, disk: int, bill: Billing, states: seq<Fan>,
                                     moves: seq<Move>, n: nat)
    requires FanRun(presets, disk, bill, states, moves) && n < |states|
    ensures FanInv(presets, disk, bill, states[n])
  {
    if n > 0 {
      FanRunInv(presets, disk, bill, states, moves, n - 1);
      MoveKeepsInv(presets, disk, bill, states[n - 1], moves[n - 1]);
      assert states[n - 1 + 1] == MoveOn(presets, disk, bill, states[n - 1], moves[n - 1]);
    } else {
      assert Running(states[0].phases) == {};
    }
  }

  /**
   Every interleaving that comes to its end has, for each preset, the prices that
   the billing replies for it say, and nothing else.
   */
  lemma FinishedFanPrices(presets: seq<Preset>, disk: int, bill: Billing, states: seq<Fan>, moves: seq<Move>)
    requires FanRun(presets, disk, bill, states, moves) && DistinctKeys(presets, disk)
    requires forall i :: 0 <= i < |presets| ==>
               |states[|moves|].phases| == |presets| && states[|moves|].phases[i].Finished?
    ensures forall i :: 0 <= i < |presets| ==>
              var k := PriceKey(presets[i].platform, presets[i].preset, disk);
              k in states[|moves|].prices && PricedBy(presets[i], bill, states[|moves|].prices[k])
    ensures forall k :: k in states[|moves|].prices ==>
              exists i :: 0 <= i < |presets| && k == PriceKey(presets[i].platform, presets[i].preset, disk)
  {
    var s := states[|moves|];
    FanRunInv(presets, disk, bill, states, moves, |moves|);
    forall i | 0 <= i < |presets|
      ensures var k := PriceKey(presets[i].platform, presets[i].preset, disk);
              k in s.prices && PricedBy(presets[i], bill, s.prices[k])
    {
      var k := KeyOf(presets[i], disk);
      assert k in s.prices;
      var j :| StoredFor(presets, disk, bill, s, k, j);
      assert j == i;
      PriceOfIff(presets[i], bill, s.prices[k]);
    }
    forall k | k in s.prices
      ensures exists i :: 0 <= i < |presets| && k == PriceKey(presets[i].platform, presets[i].preset, disk)
    {
      var i :| StoredFor(presets, disk, bill, s, k, i);
      assert k == PriceKey(presets[i].platform, presets[i].preset, disk);
    }
  }

  /** Every interleaving that comes to its end has built the sequential map. */
  lemma FanEqualsSequential(presets: seq<Preset>, disk: int, bill: Billing, states: seq<Fan>, moves: seq<Move>)
    requires FanRun(presets, disk, bill, states, moves) && DistinctKeys(presets, disk)
    requires forall i :: 0 <= i < |presets| ==>
               |states[|moves|].phases| == |presets| && states[|moves|].phases[i].Finished?
    ensures states[|moves|].prices == SequentialPrices(presets, disk, bill)
    ensures forall n :: 0 <= n < |states| ==> |Running(states[n].phases)| <= MAX_CONCURRENT_PRICE_REQUESTS
  {
    forall n | 0 <= n < |states|
      ensures |Running(states[n].phases)| <= MAX_CONCURRENT_PRICE_REQUESTS
    {
      FanRunInv(presets, disk, bill, states, moves, n);
    }
    FanRunInv(presets, disk, bill, states, moves, |moves|);
    FinishedIsSequential(presets, disk, bill, states[|moves|]);
  }

  lemma FinishedIsSequential(presets: seq<Preset>, disk: int, bill: Billing, s: Fan)
    requires FanInv(presets, disk, bill, s) && DistinctKeys(presets, disk)
    requires forall i :: 0 <= i < |presets| ==> s.phases[i].Finished?
    ensures s.prices == SequentialPrices(presets, disk, bill)
  {
    forall i | 0 <= i < |presets|
      ensures var k := KeyOf(presets[i], disk);
              k in s.prices && k in SequentialPrices(presets, disk, bill)
              && s.prices[k] == SequentialPrices(presets, disk, bill)[k]
    {
      var k := KeyOf(presets[i], disk);
      assert k in s.prices;
      var j :| StoredFor(presets, disk, bill, s, k, j);
      SequentialPricesAt(presets, disk, bill, presets[i]);
    }
    SequentialKeys(presets, disk, bill);
    forall k ensures k in s.prices <==> k in SequentialPrices(presets, disk, bill) {
      if k in s.prices {
        var j :| StoredFor(presets, disk, bill, s, k, j);
      }
      if k in SequentialPrices(presets, disk, bill) {
        var j :| 0 <= j < |presets| && KeyOf(presets[j], disk) == k;
      }
    }
    forall k | k in s.prices ensures s.prices[k] == SequentialPrices(presets, disk, bill)[k] {
      var j :| StoredFor(presets, disk, bill, s, k, j);
    }
  }

  /** Until all goroutines have finished, some move is possible. */
  lemma NoDeadlock(s: Fan, i: nat)
    requires i < |s.phases| && !s.phases[i].Finished?
    ensures exists m :: Enabled(s, m)
  {
    if j :| j in Running(s.phases) {
      if s.phases[j].AskingOnDemand? {
        assert Enabled(s, OnDemandReply(j));
      } else if s.phases[j].AskingPreemptible? {
        assert Enabled(s, PreemptibleReply(j));
      } else {
        assert Enabled(s, Store(j));
      }
    } else {
      assert Running(s.phases) == {};
      assert s.phases[i].Waiting? || i in Running(s.phases);
      var first := FirstWaiting(s.phases, i);
      assert Enabled(s, Launch(first));
    }
  }

  lemma {:induction false} FirstWaiting(phases: seq<Phase>, i: nat) returns (first: nat)
    requires i < |phases| && phases[i].Waiting?
    ensures first < |phases| && phases[first].Waiting?
    ensures forall j :: 0 <= j < first ==> !phases[j].Waiting?
  {
    if j: nat :| j < i && phases[j].Waiting? {
      first := FirstWaiting(phases, j);
    } else {
      first := i;
    }
  }
}
