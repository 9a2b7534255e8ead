/**
 The allocator of WireGuard peer IPs: addresses already on Nodes, plus the
 addresses handed out but not yet seen on a Node (IPAllocator).
 */
module IPAllocator {
  import opened Wrappers
  import opened RandomIP

  datatype AddressType = InternalIP | OtherAddress

  datatype Address = Address(kind: AddressType, address: string)

  datatype Node = Node(nodeClass: string, addresses: seq<Address>)

  /** What looking a NodeClaim up in the cache reports. */
  datatype Lookup = Found | NotFound | LookupError

  type PreAllocated = map<string, map<string, string>>

  // ---- Specification ----

  ghost function NodeIPs(node: Node): set<string> {
    set a | a in node.addresses && a.kind == InternalIP :: a.address
  }

  ghost function ConfirmedIPs(nodes: seq<Node>): set<string> {
    set node, ip | node in nodes && ip in NodeIPs(node) :: ip
  }

  function Entries(pre: PreAllocated, nodeClass: string): map<string, string> {
    if nodeClass in pre then pre[nodeClass] else map[]
  }

  /** Some listed Node has the address as an internal one. */
  ghost predicate OnNode(nodes: seq<Node>, ip: string) {
    exists node :: node in nodes && Address(InternalIP, ip) in node.addresses
  }

  lemma ConfirmedIff(nodes: seq<Node>, ip: string)
    ensures ip in ConfirmedIPs(nodes) <==> OnNode(nodes, ip)
  {
    if node :| node in nodes && Address(InternalIP, ip) in node.addresses {
      assert ip in NodeIPs(node);
    }
    if ip in ConfirmedIPs(nodes) {
      var node :| node in nodes && ip in NodeIPs(node);
      var a :| a in node.addresses && a.kind == InternalIP && a.address == ip;
      assert a == Address(InternalIP, ip);
    }
  }

  /**
   One AllocateIP call. Confirmed addresses leave the class's entries even when
   the allocation then fails; a new entry is added only on success.
   */
  ghost predicate Allocates(other: OtherNotation, pre: PreAllocated, listing: Option<seq<Node>>, cidr: string,
                            nodeClass: string, claim: string, pre': PreAllocated, r: Result<string, AllocError>)
  {
    match listing
    case None => r == Err(ListFailed) && pre' == pre
    case Some(nodes) =>
      var confirmed := ConfirmedIPs(nodes);
      var kept := Entries(pre, nodeClass) - confirmed;
      && Answers(cidr, confirmed + kept.Keys, other, r)
      && pre' == pre[nodeClass := if r.Ok? then kept[r.value := claim] else kept]
  }

  function Surviving(entries: map<string, string>, nodeClass: string, lookup: (string, string, string) -> Lookup)
    : map<string, string>
  {
    map ip | ip in entries && lookup(nodeClass, ip, entries[ip]) != NotFound :: entries[ip]
  }

  /** One cleanup: entries of claims reported missing go, and so do classes left empty. */
  function Cleaned(pre: PreAllocated, lookup: (string, string, string) -> Lookup): PreAllocated {
    map nodeClass | nodeClass in pre && Surviving(pre[nodeClass], nodeClass, lookup) != map[] ::
      Surviving(pre[nodeClass], nodeClass, lookup)
  }

  /** An address waits in the class for the claim. */
  ghost predicate Waits(pre: PreAllocated, nodeClass: string, ip: string, claim: string) {
    nodeClass in pre && ip in pre[nodeClass] && pre[nodeClass][ip] == claim
  }

  /** What waits is what did and is on no Node of the class, and what was issued, for the claim it was issued to. */
  ghost predicate Reconciled(pre: PreAllocated, nodes: seq<Node>, nodeClass: string, claim: string,
                             pre': PreAllocated, r: Result<string, AllocError>)
  {
    forall c, ip, k ::
      Waits(pre', c, ip, k) <==>
      || (Waits(pre, c, ip, k) && (c == nodeClass ==> !OnNode(nodes, ip)))
      || (c == nodeClass && k == claim && r == Ok(ip))
  }

  lemma AllocatesWaits(other: OtherNotation, pre: PreAllocated, nodes: seq<Node>, cidr: string, nodeClass: string,
                       claim: string, pre': PreAllocated, r: Result<string, AllocError>)
    requires Allocates(other, pre, Some(nodes), cidr, nodeClass, claim, pre', r)
    ensures Reconciled(pre, nodes, nodeClass, claim, pre', r)
  {
    forall ip ensures ip in ConfirmedIPs(nodes) <==> OnNode(nodes, ip) {
      ConfirmedIff(nodes, ip);
    }
    if r.Ok? {
      IssuedIsNotTaken(cidr, ConfirmedIPs(nodes) + (Entries(pre, nodeClass) - ConfirmedIPs(nodes)).Keys, other, r.value);
    }
  }

  /** After a cleanup what waits is what did and was not reported missing, and no class waits for nothing. */
  lemma CleanedWaits(pre: PreAllocated, lookup: (string, string, string) -> Lookup)
    ensures forall c, ip, k :: Waits(Cleaned(pre, lookup), c, ip, k) <==>
                               Waits(pre, c, ip, k) && lookup(c, ip, k) != NotFound
    ensures forall c :: c in Cleaned(pre, lookup) ==> Cleaned(pre, lookup)[c] != map[]
  {
    forall c, ip, k | Waits(pre, c, ip, k) && lookup(c, ip, k) != NotFound
      ensures Waits(Cleaned(pre, lookup), c, ip, k)
    {
      assert ip in Surviving(pre[c], c, lookup);
    }
  }

  // ---- The allocator ----

  class Allocator {
    var preAllocated: PreAllocated
    const other: OtherNotation

    constructor (other: OtherNotation)
      ensures preAllocated == map[] && this.other == other
    {
      preAllocated := map[];
      this.other := other;
    }

    /**
     Runs under the lock. `listing` is what the cache returned for the Nodes
     labelled with the node class, None if listing them failed.
     */
    method AllocateIP(listing: Option<seq<Node>>, cidr: string, nodeClass: string, claim: string)
      returns (r: Result<string, AllocError>)
      modifies this
      ensures Allocates(other, old(preAllocated), listing, cidr, nodeClass, claim, preAllocated, r)
      ensures listing.None? ==> r == Err(ListFailed) && preAllocated == old(preAllocated)
      ensures listing.Some? ==>
                Reconciled(old(preAllocated), listing.value, nodeClass, claim, preAllocated, r)
    {
      if listing.None? {
        return Err(ListFailed);
      }
      var confirmed := InternalIPs(listing.value);

      var preAlloc := DropConfirmed(Entries(preAllocated, nodeClass), confirmed);
      preAllocated := preAllocated[nodeClass := preAlloc];

      var confirmedIPs := Enumerate(confirmed);
      var pendingIPs := Enumerate(preAlloc.Keys);
      assert Elements(confirmedIPs + pendingIPs) == confirmed + preAlloc.Keys;
      r := AllocateRandomIP(cidr, confirmedIPs + pendingIPs, other);
      if r.Ok? {
        preAllocated := preAllocated[nodeClass := preAlloc[r.value := claim]];
      }
      AllocatesWaits(other, old(preAllocated), listing.value, cidr, nodeClass, claim, preAllocated, r);
    }

    /** Runs under the lock; every entry is looked up once. */
    method Cleanup(lookup: (string, string, string) -> Lookup)
      modifies this
      ensures preAllocated == Cleaned(old(preAllocated), lookup)
      ensures forall c, ip, k :: Waits(preAllocated, c, ip, k) <==>
                                 Waits(old(preAllocated), c, ip, k) && lookup(c, ip, k) != NotFound
      ensures forall c :: c in preAllocated ==> preAllocated[c] != map[]
    {
      CleanedWaits(preAllocated, lookup);
      ghost var before := preAllocated;
      var classes := preAllocated.Keys;
      while classes != {}
        invariant preAllocated == PartlyCleaned(before, classes, lookup)
        invariant classes <= before.Keys
        decreases classes
      {
        var nodeClass :| nodeClass in classes;
        VisitClass(before, classes, nodeClass, lookup);
        var preAlloc := DropMissing(preAllocated[nodeClass], nodeClass, lookup);
        if preAlloc == map[] {
          preAllocated := preAllocated - {nodeClass};
        } else {
          preAllocated := preAllocated[nodeClass := preAlloc];
        }
        classes := classes - {nodeClass};
      }
    }
  }

  /** The state of a cleanup that still has the classes `todo` to visit. */
  ghost function PartlyCleaned(pre: PreAllocated, todo: set<string>, lookup: (string, string, string) -> Lookup)
    : PreAllocated
  {
    map nodeClass | nodeClass in pre
                    && (nodeClass in todo || Surviving(pre[nodeClass], nodeClass, lookup) != map[]) ::
      if nodeClass in todo then pre[nodeClass] else Surviving(pre[nodeClass], nodeClass, lookup)
  }

  lemma VisitClass(pre: PreAllocated, todo: set<string>, nodeClass: string,
                   lookup: (string, string, string) -> Lookup)
    requires nodeClass in todo && todo <= pre.Keys
    ensures var partly, rest := PartlyCleaned(pre, todo, lookup), PartlyCleaned(pre, todo - {nodeClass}, lookup);
            var surviving := Surviving(pre[nodeClass], nodeClass, lookup);
            && nodeClass in partly && partly[nodeClass] == pre[nodeClass]
            && rest == (if surviving == map[] then partly - {nodeClass} else partly[nodeClass := surviving])
  {}

  method DropConfirmed(entries: map<string, string>, confirmed: set<string>) returns (preAlloc: map<string, string>)
    ensures preAlloc == entries - confirmed
  {
    preAlloc := entries;
    var ips := entries.Keys;
    while ips != {}
      invariant preAlloc == entries - ((entries.Keys - ips) * confirmed)
      decreases ips
    {
      var ip :| ip in ips;
      if ip in confirmed {
        preAlloc := preAlloc - {ip};
      }
      ips := ips - {ip};
    }
  }

  method DropMissing(entries: map<string, string>, nodeClass: string, lookup: (string, string, string) -> Lookup)
    returns (preAlloc: map<string, string>)
    ensures preAlloc == Surviving(entries, nodeClass, lookup)
  {
    preAlloc := entries;
    var ips := entries.Keys;
    while ips != {}
      invariant ips <= entries.Keys
      invariant preAlloc == map ip | ip in entries
                                     && (ip in ips || lookup(nodeClass, ip, entries[ip]) != NotFound) :: entries[ip]
      decreases ips
    {
      var ip :| ip in ips;
      if lookup(nodeClass, ip, preAlloc[ip]) == NotFound {
        preAlloc := preAlloc - {ip};
      }
      ips := ips - {ip};
    }
  }

  method InternalIPs(nodes: seq<Node>) returns (ips: set<string>)
    ensures ips == ConfirmedIPs(nodes)
    ensures forall ip :: ip in ips <==> OnNode(nodes, ip)
  {
    forall ip ensures ip in ConfirmedIPs(nodes) <==> OnNode(nodes, ip) {
      ConfirmedIff(nodes, ip);
    }
    ips := {};
    for i := 0 to |nodes|
      invariant ips == ConfirmedIPs(nodes[..i])
    {
      var addresses := nodes[i].addresses;
      for j := 0 to |addresses|
        invariant ips == ConfirmedIPs(nodes[..i]) + NodeIPs(nodes[i].(addresses := addresses[..j]))
      {
        if addresses[j].kind == InternalIP {
          ips := ips + {addresses[j].address};
        }
      }
      assert addresses[..|addresses|] == addresses;
      assert ConfirmedIPs(nodes[..i + 1]) == ConfirmedIPs(nodes[..i]) + NodeIPs(nodes[i]);
    }
    assert nodes[..|nodes|] == nodes;
  }

  /** Go's iteration over a map's keys: some order, every key once. */
  method Enumerate(s: set<string>) returns (list: seq<string>)
    ensures Elements(list) == s
  {
    list := [];
    var todo := s;
    while todo != {}
      invariant todo <= s && Elements(list) == s - todo
      decreases todo
    {
      var x :| x in todo;
      assert Elements(list + [x]) == Elements(list) + {x};
      list := list + [x];
      todo := todo - {x};
    }
  }
}
