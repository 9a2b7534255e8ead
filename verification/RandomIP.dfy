/** Choosing a random free address of a CIDR (AllocateRandomIP). */
module RandomIP {
  import opened Wrappers
  import opened Text
  import opened Decimal
  import opened IPv4

  /**
   What net.ParseIP makes of text that is not four dotted numerals: None when it
   is no address at all, and otherwise the text net.IP.String prints for it once
   an IPv4-mapped address has been reduced to four bytes.
   */
  type OtherNotation = string -> Option<string>

  datatype AllocError =
    | ListFailed
    | InvalidCIDR
    | InvalidTaken(ip: string)
    | UnsupportedFamily
    | NoFreeAddress

  datatype Parsed = Invalid | NotIPv4 | Block(net: IPNet)

  function Network(a: u32, ones: nat): (net: IPNet)
    requires ones <= 32
    ensures net.Valid() && net.ones == ones && net.Contains(a)
  {
    var m := Pow2(32 - ones);
    MaskKeepsPrefix(a, m);
    IPNet(a - a % m, ones)
  }

  lemma MaskKeepsPrefix(a: int, m: int)
    requires a >= 0 && m > 0
    ensures 0 <= a - a % m <= a && (a - a % m) % m == 0 && (a - a % m) / m == a / m
  {
    var q := a / m;
    assert a == m * q + a % m;
    DivModUnique(a - a % m, m, q, 0);
  }

  /** net.ParseCIDR, as far as its caller tells the outcomes apart. */
  function ParseCIDR(cidr: string, other: OtherNotation): (p: Parsed)
    ensures p.Block? ==> p.net.Valid()
  {
    var parts := Split(cidr, '/');
    if |parts| != 2 || parts[1] == "" || !AllDigits(parts[1]) then Invalid
    else
      var ones := Value(parts[1]);
      match ParseDotted(parts[0])
      case Some(a) => if ones <= 32 then Block(Network(a, ones)) else Invalid
      case None => if other(parts[0]).Some? && ones <= 128 then NotIPv4 else Invalid
  }

  /** A CIDR in text: whatever stands before the only slash, and a numeral after it. */
  predicate IsCIDR(s: string, address: string, length: string) {
    s == address + "/" + length && '/' !in address && length != "" && AllDigits(length)
  }

  lemma SplitCIDR(s: string, address: string, length: string)
    ensures IsCIDR(s, address, length) <==>
            Split(s, '/') == [address, length] && length != "" && AllDigits(length)
  {
    var parts := [address, length];
    assert parts[1..] == [length];
    assert Join(parts, '/') == address + "/" + length;
    if IsCIDR(s, address, length) {
      SplitJoin(parts, '/');
    }
    if Split(s, '/') == parts {
      JoinSplit(s, '/');
      assert parts[0] in parts;
    }
  }

  /** Which block a text denotes: the one of the prefix length that contains the address. */
  lemma ParseCIDRIff(s: string, other: OtherNotation, net: IPNet)
    ensures ParseCIDR(s, other) == Block(net) <==>
            exists a: u32, m ::
              && s == Dotted(a) + "/" + m && m != "" && AllDigits(m) && Value(m) <= 32
              && net.ones == Value(m) && net.Valid() && net.Contains(a)
  {
    if a: u32, m :| && s == Dotted(a) + "/" + m && m != "" && AllDigits(m) && Value(m) <= 32
                    && net.ones == Value(m) && net.Valid() && net.Contains(a)
    {
      DottedHasNo(a, '/');
      SplitCIDR(s, Dotted(a), m);
      ParseDottedIff(Dotted(a), a);
      BlockOf(net, a);
      BlockOf(Network(a, net.ones), a);
    }
    if ParseCIDR(s, other) == Block(net) {
      var parts := Split(s, '/');
      var a, m := ParseDotted(parts[0]).value, parts[1];
      assert parts == [parts[0], m];
      SplitCIDR(s, parts[0], m);
      ParseDottedIff(parts[0], a);
      assert s == Dotted(a) + "/" + m;
    }
  }

  /** A CIDR that is none of IPv4, and so, by elimination, a text that is no CIDR. */
  lemma ParseCIDRNotIPv4Iff(s: string, other: OtherNotation)
    ensures ParseCIDR(s, other) == NotIPv4 <==>
            exists x, m :: IsCIDR(s, x, m) && Value(m) <= 128 && other(x).Some? && forall a: u32 :: x != Dotted(a)
  {
    if x, m :| IsCIDR(s, x, m) && Value(m) <= 128 && other(x).Some? && forall a: u32 :: x != Dotted(a) {
      SplitCIDR(s, x, m);
      NotDotted(x);
    }
    if ParseCIDR(s, other) == NotIPv4 {
      var parts := Split(s, '/');
      assert parts == [parts[0], parts[1]];
      SplitCIDR(s, parts[0], parts[1]);
      NotDotted(parts[0]);
    }
  }

  lemma NotDotted(x: string)
    ensures ParseDotted(x).None? <==> forall a: u32 :: x != Dotted(a)
  {
    if ParseDotted(x).Some? {
      ParseDottedIff(x, ParseDotted(x).value);
    }
    forall a: u32 | x == Dotted(a) ensures ParseDotted(x).Some? {
      ParseDottedIff(x, a);
    }
  }

  /** The text under which an address is entered in the set of taken addresses. */
  function Normalized(ip: string, other: OtherNotation): Option<string> {
    if ParseDotted(ip).Some? then Some(Dotted(ParseDotted(ip).value)) else other(ip)
  }

  ghost predicate AllParse(taken: set<string>, other: OtherNotation) {
    forall ip :: ip in taken ==> Normalized(ip, other).Some?
  }

  ghost function TakenTexts(taken: set<string>, other: OtherNotation): set<string> {
    set ip | ip in taken && Normalized(ip, other).Some? :: Normalized(ip, other).value
  }

  /** Dotted text is its own normal form, so such an entry takes that address only. */
  lemma DottedIsNormal(a: u32, other: OtherNotation)
    ensures Normalized(Dotted(a), other) == Some(Dotted(a))
  {
    ParseDottedIff(Dotted(a), a);
  }

  /** For dotted entries, equality of text is equality of addresses. */
  lemma TakenIsNumeric(taken: set<string>, other: OtherNotation, a: u32)
    requires forall ip :: ip in taken ==> ParseDotted(ip).Some?
    ensures Dotted(a) in TakenTexts(taken, other) <==>
            exists ip :: ip in taken && ParseDotted(ip) == Some(a)
  {
    DottedIsNormal(a, other);
    if Dotted(a) in TakenTexts(taken, other) {
      var ip :| ip in taken && Normalized(ip, other) == Some(Dotted(a));
      DottedInjective(a, ParseDotted(ip).value);
      assert ParseDotted(ip) == Some(a);
    }
    if ip :| ip in taken && ParseDotted(ip) == Some(a) {
      assert Normalized(ip, other) == Some(Dotted(a));
    }
  }

  /** Everything a call may answer; the choice among the free addresses is open. */
  ghost predicate Answers(cidr: string, taken: set<string>, other: OtherNotation, r: Result<string, AllocError>) {
    match ParseCIDR(cidr, other)
    case Invalid => r == Err(InvalidCIDR)
    case NotIPv4 =>
      if AllParse(taken, other) then r == Err(UnsupportedFamily) else r.Err? && RejectsTaken(taken, other, r.error)
    case Block(net) =>
      if !AllParse(taken, other) then r.Err? && RejectsTaken(taken, other, r.error)
      else match r
        case Ok(ip) => exists a: u32 :: Free(net, taken, other, a) && ip == Dotted(a)
        case Err(e) => e == NoFreeAddress && forall a: u32 :: !Free(net, taken, other, a)
  }

  ghost predicate RejectsTaken(taken: set<string>, other: OtherNotation, e: AllocError) {
    e.InvalidTaken? && e.ip in taken && Normalized(e.ip, other).None?
  }

  ghost predicate Free(net: IPNet, taken: set<string>, other: OtherNotation, a: u32)
    requires net.Valid()
  {
    net.Usable(a) && Dotted(a) !in TakenTexts(taken, other)
  }

  /** An issued address is none of the taken strings. */
  lemma IssuedIsNotTaken(cidr: string, taken: set<string>, other: OtherNotation, ip: string)
    requires Answers(cidr, taken, other, Ok(ip))
    ensures ip !in taken
  {
    var net := ParseCIDR(cidr, other).net;
    var a: u32 :| Free(net, taken, other, a) && ip == Dotted(a);
    DottedIsNormal(a, other);
  }

  // ---- Answers in terms of the texts ----

  /** b is in the block of a with this prefix length, and up to /30 neither its first nor its last address. */
  ghost predicate HostOf(a: u32, ones: nat, b: u32)
    requires ones <= 32
  {
    var size := Pow2(32 - ones);
    b / size == a / size && (ones <= 30 ==> b % size != 0 && b % size != size - 1)
  }

  /** The entry stands for the address, in dotted or in another notation. */
  ghost predicate StandsFor(ip: string, other: OtherNotation, b: u32) {
    ip == Dotted(b) || ((forall c: u32 :: ip != Dotted(c)) && other(ip) == Some(Dotted(b)))
  }

  /**
   What a call for the block of a with this prefix length may answer: a host of
   the block that no entry stands for, an entry that is no address, or that the
   entries stand for all hosts.
   */
  ghost predicate AnswersFor(a: u32, ones: nat, taken: set<string>, other: OtherNotation, r: Result<string, AllocError>)
    requires ones <= 32
  {
    match r
    case Ok(ip) =>
      exists b: u32 :: ip == Dotted(b) && HostOf(a, ones, b) && forall t :: t in taken ==> !StandsFor(t, other, b)
    case Err(InvalidTaken(t)) => t in taken && other(t).None? && forall c: u32 :: t != Dotted(c)
    case Err(NoFreeAddress) =>
      forall b: u32 :: HostOf(a, ones, b) ==> exists t :: t in taken && StandsFor(t, other, b)
    case Err(_) => false
  }

  lemma StandsForIff(ip: string, other: OtherNotation, b: u32)
    ensures StandsFor(ip, other, b) <==> Normalized(ip, other) == Some(Dotted(b))
  {
    NotDotted(ip);
    if ParseDotted(ip).Some? {
      var a := ParseDotted(ip).value;
      ParseDottedIff(ip, a);
      if Dotted(a) == Dotted(b) { DottedInjective(a, b); }
    } else {
      ParseDottedIff(ip, b);
    }
  }

  lemma FreeIff(net: IPNet, a: u32, taken: set<string>, other: OtherNotation, b: u32)
    requires net.Valid() && net.Contains(a) && AllParse(taken, other)
    ensures Free(net, taken, other, b) <==>
            HostOf(a, net.ones, b) && forall t :: t in taken ==> !StandsFor(t, other, b)
  {
    forall t ensures StandsFor(t, other, b) <==> Normalized(t, other) == Some(Dotted(b)) {
      StandsForIff(t, other, b);
    }
  }

  /** For a CIDR in text the answers are about its address and its prefix length. */
  lemma AnswersOfText(a: u32, m: string, taken: set<string>, other: OtherNotation, r: Result<string, AllocError>)
    requires m != "" && AllDigits(m) && Value(m) <= 32
    requires Answers(Dotted(a) + "/" + m, taken, other, r)
    ensures AnswersFor(a, Value(m), taken, other, r)
  {
    var net := Network(a, Value(m));
    ParseCIDRIff(Dotted(a) + "/" + m, other, net);
    if AllParse(taken, other) {
      forall b: u32
        ensures Free(net, taken, other, b) <==>
                HostOf(a, net.ones, b) && forall t :: t in taken ==> !StandsFor(t, other, b)
      {
        FreeIff(net, a, taken, other, b);
      }
    } else {
      NotDotted(r.error.ip);
    }
  }

  /** The same of every way to read the text as an address, a slash and a prefix length. */
  ghost predicate AnswersText(cidr: string, taken: set<string>, other: OtherNotation, r: Result<string, AllocError>) {
    forall a: u32, m :: cidr == Dotted(a) + "/" + m && m != "" && AllDigits(m) && Value(m) <= 32 ==>
      AnswersFor(a, Value(m), taken, other, r)
  }

  lemma AnswersOfTexts(cidr: string, taken: set<string>, other: OtherNotation)
    ensures forall r :: Answers(cidr, taken, other, r) ==> AnswersText(cidr, taken, other, r)
  {
    forall r, a: u32, m | Answers(cidr, taken, other, r)
                          && cidr == Dotted(a) + "/" + m && m != "" && AllDigits(m) && Value(m) <= 32
      ensures AnswersFor(a, Value(m), taken, other, r)
    {
      AnswersOfText(a, m, taken, other, r);
    }
  }

  ghost function Elements<T>(s: seq<T>): set<T> { set x | x in s }

  /** Enters every taken address under its normal text; stops at the first that does not parse. */
  method EnterTaken(allocatedIPs: seq<string>, other: OtherNotation)
    returns (r: Result<set<string>, AllocError>)
    ensures r.Ok? <==> AllParse(Elements(allocatedIPs), other)
    ensures r.Ok? ==> r.value == TakenTexts(Elements(allocatedIPs), other)
    ensures r.Err? ==> RejectsTaken(Elements(allocatedIPs), other, r.error)
  {
    var entered: set<string> := {};
    for i := 0 to |allocatedIPs|
      invariant AllParse(Elements(allocatedIPs[..i]), other)
      invariant entered == TakenTexts(Elements(allocatedIPs[..i]), other)
    {
      var ip := allocatedIPs[i];
      var parsed := Normalized(ip, other);
      if parsed.None? {
        assert ip in Elements(allocatedIPs);
        return Err(InvalidTaken(ip));
      }
      assert Elements(allocatedIPs[..i + 1]) == Elements(allocatedIPs[..i]) + {ip};
      entered := entered + {parsed.value};
    }
    assert allocatedIPs[..|allocatedIPs|] == allocatedIPs;
    return Ok(entered);
  }

  /** The text of the address at an offset, added in uint32 arithmetic. */
  function Candidate(net: IPNet, offset: u32): string {
    Dotted(Wrap(net.network + offset))
  }

  /** Collects the offsets of the host range whose address has not been entered. */
  method FreeOffsets(net: IPNet, range: HostRange, entered: set<string>) returns (free: seq<u32>)
    requires range.end < TWO32 - 1
    ensures forall f: u32 :: f in free <==>
      range.start <= f <= range.end && Candidate(net, f) !in entered
  {
    free := [];
    var offset := range.start;
    while offset <= range.end
      invariant offset <= range.end + 1 || free == []
      invariant forall f: u32 :: f in free <==>
        range.start <= f < offset && Candidate(net, f) !in entered
      decreases TWO32 - offset
    {
      if Candidate(net, offset) !in entered {
        free := free + [offset];
      }
      WrapNoop(offset + 1);
      offset := Wrap(offset + 1);
    }
  }

  /** An offset of the host range and the usable address it stands for. */
  lemma OffsetIsUsable(net: IPNet, f: u32)
    requires net.Valid()
    requires var range := HostRangeOf(net.HostBits()); range.start <= f <= range.end
    ensures net.network + f < TWO32 && net.Usable(net.network + f)
    ensures Candidate(net, f) == Dotted(net.network + f)
  {
    HostRangeIsUsable(net, net.network + f);
    WrapNoop(net.network + f);
  }

  /** A usable address has its offset in the host range. */
  lemma UsableHasOffset(net: IPNet, a: u32)
    requires net.Valid() && net.Usable(a)
    ensures var range := HostRangeOf(net.HostBits()); range.start <= a - net.network <= range.end
    ensures Candidate(net, a - net.network) == Dotted(a)
  {
    HostRangeIsUsable(net, a);
    WrapNoop(a);
  }

  lemma NoOffsetNoFree(net: IPNet, taken: set<string>, other: OtherNotation)
    requires net.Valid()
    requires var range := HostRangeOf(net.HostBits());
             forall f: u32 :: range.start <= f <= range.end ==> Candidate(net, f) in TakenTexts(taken, other)
    ensures forall a: u32 :: !Free(net, taken, other, a)
  {
    forall a: u32 ensures !Free(net, taken, other, a) {
      if net.Usable(a) {
        UsableHasOffset(net, a);
      }
    }
  }

  method AllocateRandomIP(cidr: string, allocatedIPs: seq<string>, other: OtherNotation)
    returns (r: Result<string, AllocError>)
    ensures Answers(cidr, Elements(allocatedIPs), other, r)
    ensures AnswersText(cidr, Elements(allocatedIPs), other, r)
  {
    AnswersOfTexts(cidr, Elements(allocatedIPs), other);
    var ipNet := ParseCIDR(cidr, other);
    if ipNet.Invalid? {
      return Err(InvalidCIDR);
    }
    var entered := EnterTaken(allocatedIPs, other);
    if entered.Err? {
      return Err(entered.error);
    }
    if ipNet.NotIPv4? {
      return Err(UnsupportedFamily);
    }
    var net := ipNet.net;
    HostRangeDenotes(net.HostBits());
    var free := FreeOffsets(net, HostRangeOf(net.HostBits()), entered.value);
    if |free| == 0 {
      NoOffsetNoFree(net, Elements(allocatedIPs), other);
      return Err(NoFreeAddress);
    }
    var i :| 0 <= i < |free|;
    assert free[i] in free;
    OffsetIsUsable(net, free[i]);
    return Ok(Candidate(net, free[i]));
  }
}
