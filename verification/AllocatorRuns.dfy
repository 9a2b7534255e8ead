/**
 Whole runs of the allocator beside a changing cluster: allocations, cleanups,
 Nodes and NodeClaims coming and going in any order.
 */
module AllocatorRuns {
  import opened Wrappers
  import opened Decimal
  import opened IPv4
  import opened RandomIP
  import opened IPAllocator

  /** An address issued to a claim that is still alive. */
  datatype Hold = Hold(nodeClass: string, claim: string, ip: string)

  /** The allocator's state, the cluster as its cache shows it, and the holds. */
  datatype World = World(pre: PreAllocated, nodes: map<string, Node>, claims: set<string>, holds: set<Hold>)

  datatype Event =
    | Allocate(listing: Option<seq<Node>>, cidr: string, nodeClass: string, claim: string,
               r: Result<string, AllocError>)
    | Cleanup(lookup: (string, string, string) -> Lookup)
    | ListNode(name: string, node: Node)
    | UnlistNode(name: string)
    | CreateClaim(claim: string)
    | DeleteClaim(claim: string)

  /** The listing holds the Nodes labelled with the class, in any order. */
  ghost predicate Lists(nodes: map<string, Node>, nodeClass: string, listing: seq<Node>) {
    forall node :: node in listing <==> node in nodes.Values && node.nodeClass == nodeClass
  }

  ghost predicate Confirmed(nodes: map<string, Node>, nodeClass: string, ip: string) {
    exists name :: name in nodes && nodes[name].nodeClass == nodeClass
                   && Address(InternalIP, ip) in nodes[name].addresses
  }

  /** Once a held address is on a listed Node, some listed Node of the class keeps it. */
  ghost predicate KeepsHeldAddresses(w: World, nodes': map<string, Node>) {
    forall h :: h in w.holds && Confirmed(w.nodes, h.nodeClass, h.ip) ==> Confirmed(nodes', h.nodeClass, h.ip)
  }

  /** A lookup reports NotFound only for claims that are not there. */
  ghost predicate Truthful(lookup: (string, string, string) -> Lookup, claims: set<string>) {
    forall nodeClass, ip, claim :: lookup(nodeClass, ip, claim) == NotFound ==> claim !in claims
  }

  ghost predicate Step(other: OtherNotation, w: World, e: Event, w': World) {
    match e
    case Allocate(listing, cidr, nodeClass, claim, r) =>
      && claim in w.claims
      && (listing.Some? ==> Lists(w.nodes, nodeClass, listing.value))
      && Allocates(other, w.pre, listing, cidr, nodeClass, claim, w'.pre, r)
      && w' == w.(pre := w'.pre,
                  holds := w.holds + if r.Ok? then {Hold(nodeClass, claim, r.value)} else {})
    case Cleanup(lookup) =>
      && Truthful(lookup, w.claims)
      && w' == w.(pre := Cleaned(w.pre, lookup))
    case ListNode(name, node) =>
      && w' == w.(nodes := w.nodes[name := node])
      && KeepsHeldAddresses(w, w'.nodes)
    case UnlistNode(name) =>
      && w' == w.(nodes := w.nodes - {name})
      && KeepsHeldAddresses(w, w'.nodes)
    case CreateClaim(claim) =>
      w' == w.(claims := w.claims + {claim})
    case DeleteClaim(claim) =>
      w' == w.(claims := w.claims - {claim}, holds := set h | h in w.holds && h.claim != claim)
  }

  ghost predicate StepAt(other: OtherNotation, worlds: seq<World>, events: seq<Event>, i: nat)
    requires |worlds| == |events| + 1 && i < |events|
  {
    Step(other, worlds[i], events[i], worlds[i + 1])
  }

  ghost predicate Run(other: OtherNotation, worlds: seq<World>, events: seq<Event>) {
    && |worlds| == |events| + 1
    && forall i: nat :: i < |events| ==> StepAt(other, worlds, events, i)
  }

  // ---- Safety ----

  /** A held address is either waiting under its claim's name or on a listed Node. */
  ghost predicate Tracked(w: World, h: Hold) {
    || (h.ip in Entries(w.pre, h.nodeClass) && Entries(w.pre, h.nodeClass)[h.ip] == h.claim)
    || Confirmed(w.nodes, h.nodeClass, h.ip)
  }

  ghost predicate NoDuplicates(holds: set<Hold>) {
    forall h, k :: h in holds && k in holds && h.nodeClass == k.nodeClass && h.ip == k.ip ==> h.claim == k.claim
  }

  ghost predicate Inv(w: World) {
    && (forall h :: h in w.holds ==> h.claim in w.claims && Tracked(w, h))
    && NoDuplicates(w.holds)
  }

  lemma ConfirmedInListing(nodes: map<string, Node>, nodeClass: string, listing: seq<Node>, ip: string)
    requires Lists(nodes, nodeClass, listing)
    ensures ip in ConfirmedIPs(listing) <==> Confirmed(nodes, nodeClass, ip)
  {
    ConfirmedIff(listing, ip);
    if OnNode(listing, ip) {
      var node :| node in listing && Address(InternalIP, ip) in node.addresses;
      assert node in nodes.Values;
    }
    if Confirmed(nodes, nodeClass, ip) {
      var name :| name in nodes && nodes[name].nodeClass == nodeClass && Address(InternalIP, ip) in nodes[name].addresses;
      assert nodes[name] in nodes.Values;
      assert nodes[name] in listing;
    }
  }

  lemma AllocateKeepsInv(other: OtherNotation, w: World, e: Event, w': World)
    requires Inv(w) && e.Allocate? && Step(other, w, e, w')
    ensures Inv(w')
  {
    if e.listing.Some? {
      var confirmed := ConfirmedIPs(e.listing.value);
      var kept := Entries(w.pre, e.nodeClass) - confirmed;
      forall ip ensures ip in confirmed <==> Confirmed(w.nodes, e.nodeClass, ip) {
        ConfirmedInListing(w.nodes, e.nodeClass, e.listing.value, ip);
      }
      if e.r.Ok? {
        IssuedIsNotTaken(e.cidr, confirmed + kept.Keys, other, e.r.value);
        NewHoldIsUnique(w, Hold(e.nodeClass, e.claim, e.r.value));
      }
      forall h | h in w.holds
        ensures Tracked(w', h)
      {
        StillTracked(w, w', h, e.nodeClass, e.claim, confirmed, e.r);
      }
    }
  }

  lemma StillTracked(w: World, w': World, h: Hold, nodeClass: string, claim: string, confirmed: set<string>,
                     r: Result<string, AllocError>)
    requires Tracked(w, h) && w'.nodes == w.nodes
    requires forall ip :: ip in confirmed <==> Confirmed(w.nodes, nodeClass, ip)
    requires var kept := Entries(w.pre, nodeClass) - confirmed;
             && (r.Ok? ==> r.value !in kept)
             && w'.pre == w.pre[nodeClass := if r.Ok? then kept[r.value := claim] else kept]
    ensures Tracked(w', h)
  {}

  lemma NewHoldIsUnique(w: World, h: Hold)
    requires Inv(w)
    requires h.ip !in Entries(w.pre, h.nodeClass) && !Confirmed(w.nodes, h.nodeClass, h.ip)
    ensures NoDuplicates(w.holds + {h})
  {
    forall k | k in w.holds && k.nodeClass == h.nodeClass
      ensures k.ip != h.ip
    {
      assert Tracked(w, k);
    }
  }

  lemma CleanupKeepsInv(w: World, lookup: (string, string, string) -> Lookup)
    requires Inv(w) && Truthful(lookup, w.claims)
    ensures Inv(w.(pre := Cleaned(w.pre, lookup)))
  {
    var w' := w.(pre := Cleaned(w.pre, lookup));
    forall h | h in w.holds
      ensures Tracked(w', h)
    {
      assert Tracked(w, h);
      if !Confirmed(w.nodes, h.nodeClass, h.ip) {
        var surviving := Surviving(w.pre[h.nodeClass], h.nodeClass, lookup);
        assert lookup(h.nodeClass, h.ip, h.claim) != NotFound;
        assert h.ip in surviving;
      }
    }
  }

  lemma StepKeepsInv(other: OtherNotation, w: World, e: Event, w': World)
    requires Inv(w) && Step(other, w, e, w')
    ensures Inv(w')
  {
    match e
    case Allocate(_, _, _, _, _) => AllocateKeepsInv(other, w, e, w');
    case Cleanup(lookup) => CleanupKeepsInv(w, lookup);
    case ListNode(_, _) =>
      forall h | h in w.holds ensures Tracked(w', h) { assert Tracked(w, h); }
    case UnlistNode(_) =>
      forall h | h in w.holds ensures Tracked(w', h) { assert Tracked(w, h); }
    case CreateClaim(_) =>
      forall h | h in w.holds ensures Tracked(w', h) { assert Tracked(w, h); }
    case DeleteClaim(_) =>
      forall h | h in w'.holds ensures Tracked(w', h) { assert Tracked(w, h); }
  }

  lemma {:induction false} RunKeepsInv(other: OtherNotation, worlds: seq<World>, events: seq<Event>, i: nat)
    requires Run(other, worlds, events) && i < |worlds|
    requires worlds[0].holds == {}
    ensures Inv(worlds[i])
  {
    if i > 0 {
      var e := events[i - 1];
      RunKeepsInv(other, worlds, events, i - 1);
      assert StepAt(other, worlds, events, i - 1);
      StepKeepsInv(other, worlds[i - 1], e, worlds[i]);
    }
  }

  /** In every run, no address of a class is held by two live claims at once. */
  lemma NeverSharedInRun(other: OtherNotation, worlds: seq<World>, events: seq<Event>, i: nat)
    requires Run(other, worlds, events) && i < |worlds|
    requires worlds[0].holds == {}
    ensures Inv(worlds[i])
    ensures forall h, k :: h in worlds[i].holds && k in worlds[i].holds && h.nodeClass == k.nodeClass && h.ip == k.ip
              ==> h.claim == k.claim
  {
    RunKeepsInv(other, worlds, events, i);
  }

  ghost predicate IsAddress(ip: string, other: OtherNotation) {
    other(ip).Some? || exists c: u32 :: ip == Dotted(c)
  }

  /**
   The premises are what keeps held addresses tracked, and tracking is exactly
   what protects them: an address can be issued next if and only if it is
   usable, not on a listed Node and not waiting, in whatever notation.
   */
  lemma IssuableIffUntracked(other: OtherNotation, pre: PreAllocated, nodes: seq<Node>, cidr: string,
                             nodeClass: string, claim: string, c: u32, m: string, a: u32)
    requires cidr == Dotted(c) + "/" + m && m != "" && AllDigits(m) && Value(m) <= 32
    requires forall ip :: OnNode(nodes, ip) || ip in Entries(pre, nodeClass) ==> IsAddress(ip, other)
    ensures (exists pre' :: Allocates(other, pre, Some(nodes), cidr, nodeClass, claim, pre', Ok(Dotted(a)))) <==>
            && HostOf(c, Value(m), a)
            && forall ip :: OnNode(nodes, ip) || ip in Entries(pre, nodeClass) ==> !StandsFor(ip, other, a)
  {
    var net := Network(c, Value(m));
    var taken := ConfirmedIPs(nodes) + (Entries(pre, nodeClass) - ConfirmedIPs(nodes)).Keys;
    ParseCIDRIff(cidr, other, net);
    forall ip
      ensures ip in taken <==> OnNode(nodes, ip) || ip in Entries(pre, nodeClass)
      ensures IsAddress(ip, other) <==> Normalized(ip, other).Some?
    {
      ConfirmedIff(nodes, ip);
      NotDotted(ip);
    }
    FreeIff(net, c, taken, other, a);
    IssuableIffFree(other, pre, nodes, cidr, nodeClass, claim, net, a);
  }

  lemma IssuableIffFree(other: OtherNotation, pre: PreAllocated, nodes: seq<Node>, cidr: string, nodeClass: string,
                        claim: string, net: IPNet, a: u32)
    requires ParseCIDR(cidr, other) == Block(net)
    requires AllParse(ConfirmedIPs(nodes) + (Entries(pre, nodeClass) - ConfirmedIPs(nodes)).Keys, other)
    ensures (exists pre' :: Allocates(other, pre, Some(nodes), cidr, nodeClass, claim, pre', Ok(Dotted(a)))) <==>
            Free(net, ConfirmedIPs(nodes) + (Entries(pre, nodeClass) - ConfirmedIPs(nodes)).Keys, other, a)
  {
    var kept := Entries(pre, nodeClass) - ConfirmedIPs(nodes);
    var taken := ConfirmedIPs(nodes) + kept.Keys;
    if pre' :| Allocates(other, pre, Some(nodes), cidr, nodeClass, claim, pre', Ok(Dotted(a))) {
      var b: u32 :| Free(net, taken, other, b) && Dotted(a) == Dotted(b);
      DottedInjective(a, b);
    }
    if Free(net, taken, other, a) {
      assert Answers(cidr, taken, other, Ok(Dotted(a)));
      var pre' := pre[nodeClass := kept[Dotted(a) := claim]];
      assert Allocates(other, pre, Some(nodes), cidr, nodeClass, claim, pre', Ok(Dotted(a)));
    }
  }

  // ---- Exhaustion ----

  ghost function Texts(net: IPNet): set<string>
    requires net.Valid()
  {
    set a | a in UsableSet(net) :: Dotted(a)
  }

  lemma {:induction false} ImageSize(us: set<u32>, texts: set<string>)
    requires texts == set a | a in us :: Dotted(a)
    ensures |texts| == |us|
  {
    if us != {} {
      var a :| a in us;
      var rest := us - {a};
      forall b | b in rest ensures Dotted(b) != Dotted(a) {
        if Dotted(b) == Dotted(a) { DottedInjective(a, b); }
      }
      ImageSize(rest, texts - {Dotted(a)});
    }
  }

  lemma {:induction false} SubsetSize<T>(s: set<T>, t: set<T>)
    requires s <= t
    ensures |s| <= |t|
    ensures |s| == |t| ==> s == t
  {
    if s != {} {
      var x :| x in s;
      SubsetSize(s - {x}, t - {x});
    }
  }

  /** Calls for one class of which no Node is ever listed and nothing is released. */
  ghost predicate FreshCalls(other: OtherNotation, states: seq<PreAllocated>, cidr: string, nodeClass: string,
                             claims: seq<string>, results: seq<Result<string, AllocError>>)
  {
    && |states| == |claims| + 1 == |results| + 1
    && Entries(states[0], nodeClass) == map[]
    && forall i :: 0 <= i < |claims| ==>
         FreshCall(other, states[i], cidr, nodeClass, claims[i], states[i + 1], results[i])
  }

  ghost predicate FreshCall(other: OtherNotation, pre: PreAllocated, cidr: string, nodeClass: string, claim: string,
                            pre': PreAllocated, r: Result<string, AllocError>)
  {
    Allocates(other, pre, Some([]), cidr, nodeClass, claim, pre', r)
  }

  function Min(a: int, b: int): int { if a < b then a else b }

  /** With only addresses of the block taken, a call succeeds until all are. */
  lemma AnswerWithinBlock(other: OtherNotation, cidr: string, net: IPNet, taken: set<string>,
                          r: Result<string, AllocError>)
    requires ParseCIDR(cidr, other) == Block(net) && taken <= Texts(net)
    requires Answers(cidr, taken, other, r)
    ensures r.Ok? ==> r.value in Texts(net) - taken
    ensures r.Err? ==> taken == Texts(net)
  {
    forall ip | ip in taken
      ensures Normalized(ip, other) == Some(ip)
    {
      var a :| a in UsableSet(net) && ip == Dotted(a);
      DottedIsNormal(a, other);
    }
    if r.Ok? {
      IssuedIsNotTaken(cidr, taken, other, r.value);
      var a: u32 :| Free(net, taken, other, a) && r.value == Dotted(a);
      assert a in UsableSet(net);
    } else {
      forall ip | ip in Texts(net)
        ensures ip in taken
      {
        var a :| a in UsableSet(net) && ip == Dotted(a);
        assert !Free(net, taken, other, a);
      }
    }
  }

  lemma FreshCallAdds(other: OtherNotation, pre: PreAllocated, cidr: string, nodeClass: string, claim: string,
                      pre': PreAllocated, r: Result<string, AllocError>)
    requires FreshCall(other, pre, cidr, nodeClass, claim, pre', r)
    ensures Answers(cidr, Entries(pre, nodeClass).Keys, other, r)
    ensures Entries(pre', nodeClass).Keys == Entries(pre, nodeClass).Keys + if r.Ok? then {r.value} else {}
  {
    var entries := Entries(pre, nodeClass);
    assert ConfirmedIPs([]) == {};
    assert entries - {} == entries && {} + entries.Keys == entries.Keys;
  }

  /** The class holds min(n, |texts|) entries, all of them among the texts. */
  ghost predicate Filled(pre: PreAllocated, nodeClass: string, texts: set<string>, n: nat) {
    var taken := Entries(pre, nodeClass).Keys;
    taken <= texts && |taken| == Min(n, |texts|)
  }

  lemma FreshStep(other: OtherNotation, pre: PreAllocated, cidr: string, nodeClass: string, claim: string,
                  pre': PreAllocated, r: Result<string, AllocError>, net: IPNet, n: nat)
    requires ParseCIDR(cidr, other) == Block(net)
    requires FreshCall(other, pre, cidr, nodeClass, claim, pre', r)
    requires Filled(pre, nodeClass, Texts(net), n)
    ensures Filled(pre', nodeClass, Texts(net), n + 1)
    ensures r.Ok? <==> n < |Texts(net)|
  {
    FreshCallAdds(other, pre, cidr, nodeClass, claim, pre', r);
    AnswerWithinBlock(other, cidr, net, Entries(pre, nodeClass).Keys, r);
    GrowsByOne(pre, pre', nodeClass, Texts(net), r, n);
  }

  lemma GrowsByOne(pre: PreAllocated, pre': PreAllocated, nodeClass: string, texts: set<string>,
                   r: Result<string, AllocError>, n: nat)
    requires Filled(pre, nodeClass, texts, n)
    requires Entries(pre', nodeClass).Keys == Entries(pre, nodeClass).Keys + if r.Ok? then {r.value} else {}
    requires r.Ok? ==> r.value in texts - Entries(pre, nodeClass).Keys
    requires r.Err? ==> Entries(pre, nodeClass).Keys == texts
    ensures Filled(pre', nodeClass, texts, n + 1)
    ensures r.Ok? <==> n < |texts|
  {
    if r.Ok? {
      SubsetSize(Entries(pre', nodeClass).Keys, texts);
    }
  }

  /** What every call does to the fill level, whatever that level is. */
  ghost predicate FillStep(pre: PreAllocated, pre': PreAllocated, r: Result<string, AllocError>, nodeClass: string,
                           texts: set<string>, n: nat)
  {
    Filled(pre, nodeClass, texts, n) ==> Filled(pre', nodeClass, texts, n + 1) && (r.Ok? <==> n < |texts|)
  }

  lemma {:induction false} FillsUp(states: seq<PreAllocated>, results: seq<Result<string, AllocError>>,
                                   nodeClass: string, texts: set<string>, n: nat)
    requires |states| == |results| + 1 && n <= |results|
    requires Filled(states[0], nodeClass, texts, 0)
    requires forall i: nat :: i < |results| ==> FillStep(states[i], states[i + 1], results[i], nodeClass, texts, i)
    ensures forall i :: 0 <= i < n ==> (results[i].Ok? <==> i < |texts|)
    ensures Filled(states[n], nodeClass, texts, n)
  {
    if n > 0 {
      var k := n - 1;
      FillsUp(states, results, nodeClass, texts, k);
      assert FillStep(states[k], states[k + 1], results[k], nodeClass, texts, k);
    }
  }

  /** Exactly the usable count of calls succeed, and every later one fails. */
  lemma FreshClassFills(other: OtherNotation, states: seq<PreAllocated>, cidr: string, nodeClass: string,
                        claims: seq<string>, results: seq<Result<string, AllocError>>, a: u32, m: string)
    requires FreshCalls(other, states, cidr, nodeClass, claims, results)
    requires cidr == Dotted(a) + "/" + m && m != "" && AllDigits(m) && Value(m) <= 32
    ensures forall i :: 0 <= i < |results| ==>
              (results[i].Ok? <==> i < if Value(m) <= 30 then Pow2(32 - Value(m)) - 2 else Pow2(32 - Value(m)))
  {
    var net := Network(a, Value(m));
    ParseCIDRIff(cidr, other, net);
    FreshBlockFills(other, states, cidr, nodeClass, claims, results, net);
  }

  lemma FreshBlockFills(other: OtherNotation, states: seq<PreAllocated>, cidr: string, nodeClass: string,
                        claims: seq<string>, results: seq<Result<string, AllocError>>, net: IPNet)
    requires FreshCalls(other, states, cidr, nodeClass, claims, results)
    requires ParseCIDR(cidr, other) == Block(net)
    ensures forall i :: 0 <= i < |results| ==> (results[i].Ok? <==> i < net.UsableCount())
  {
    forall i: nat | i < |results|
      ensures FillStep(states[i], states[i + 1], results[i], nodeClass, Texts(net), i)
    {
      assert FreshCall(other, states[i], cidr, nodeClass, claims[i], states[i + 1], results[i]);
      if Filled(states[i], nodeClass, Texts(net), i) {
        FreshStep(other, states[i], cidr, nodeClass, claims[i], states[i + 1], results[i], net, i);
      }
    }
    FillsUp(states, results, nodeClass, Texts(net), |results|);
    ImageSize(UsableSet(net), Texts(net));
    UsableSetSize(net);
  }
}
