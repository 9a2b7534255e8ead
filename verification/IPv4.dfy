/**
 IPv4 addresses as 32-bit words: dotted-decimal text, CIDR blocks, and the
 host range of a block computed in wrapping 32-bit arithmetic.
 */
module IPv4 {
  import opened Wrappers
  import opened Text
  import opened Decimal

  const TWO32: nat := 0x1_0000_0000

  type u32 = x: int | 0 <= x < 0x1_0000_0000

  /** Go's conversion to uint32: every uint32 operation is followed by it. */
  function Wrap(x: int): u32 { x % 0x1_0000_0000 }

  function Pow2(n: nat): (m: nat)
    ensures m > 0
  {
    if n == 0 then 1 else 2 * Pow2(n - 1)
  }

  lemma {:induction false} Pow2Sum(m: nat, n: nat)
    ensures Pow2(m + n) == Pow2(m) * Pow2(n)
  {
    if m > 0 {
      Pow2Sum(m - 1, n);
      MulAssoc(2, Pow2(m - 1), Pow2(n));
    }
  }

  lemma MulAssoc(a: int, b: int, c: int)
    ensures a * (b * c) == (a * b) * c
  {}

  lemma Pow2Of32()
    ensures Pow2(32) == TWO32
  {
    assert Pow2(8) == 256;
    Pow2Sum(8, 8);
    Pow2Sum(16, 16);
  }

  lemma {:induction false} Pow2Monotonic(m: nat, n: nat)
    requires m <= n
    ensures Pow2(m) <= Pow2(n)
  {
    if m < n { Pow2Monotonic(m, n - 1); }
  }

  // ---- Dotted-decimal text ----

  predicate AreOctets(os: seq<nat>) {
    forall i :: 0 <= i < |os| ==> os[i] < 0x100
  }

  function Octets(a: u32): (os: seq<nat>)
    ensures |os| == 4 && AreOctets(os)
  {
    var b := a / 0x100;
    var c := b / 0x100;
    var d := c / 0x100;
    [d, c % 0x100, b % 0x100, a % 0x100]
  }

  function Address(os: seq<nat>): (a: u32)
    requires |os| == 4 && AreOctets(os)
  {
    ((os[0] * 0x100 + os[1]) * 0x100 + os[2]) * 0x100 + os[3]
  }

  lemma AddressOctets(a: u32)
    ensures Address(Octets(a)) == a
  {}

  lemma OctetsAddress(os: seq<nat>)
    requires |os| == 4 && AreOctets(os)
    ensures Octets(Address(os)) == os
  {
    var a := Address(os);
    var b := a / 0x100;
    assert b == (os[0] * 0x100 + os[1]) * 0x100 + os[2];
    var c := b / 0x100;
    assert c == os[0] * 0x100 + os[1];
    assert c / 0x100 == os[0];
  }

  function Numerals(os: seq<nat>): (parts: seq<string>)
    ensures |parts| == |os|
    ensures forall i :: 0 <= i < |os| ==> parts[i] == Dec(os[i])
  {
    seq(|os|, i requires 0 <= i < |os| => Dec(os[i]))
  }

  /** net.IP.String of a four-byte address. */
  function Dotted(a: u32): string {
    Join(Numerals(Octets(a)), '.')
  }

  predicate IsOctet(part: string) {
    Canonical(part) && Value(part) < 0x100
  }

  predicate AllOctets(parts: seq<string>) {
    forall i :: 0 <= i < |parts| ==> IsOctet(parts[i])
  }

  function ReadOctets(parts: seq<string>): (os: seq<nat>)
    requires AllOctets(parts)
    ensures |os| == |parts| && AreOctets(os)
    ensures forall i :: 0 <= i < |os| ==> IsOctet(parts[i]) && os[i] == Value(parts[i])
  {
    seq(|parts|, i requires 0 <= i < |parts| => assert IsOctet(parts[i]); Value(parts[i]))
  }

  /** The dotted branch of net.ParseIP: four canonical numerals below 256. */
  function ParseDotted(s: string): Option<u32> {
    var parts := Split(s, '.');
    if |parts| == 4 && AllOctets(parts) then Some(Address(ReadOctets(parts))) else None
  }

  lemma NumeralsOfOctets(os: seq<nat>)
    requires AreOctets(os)
    ensures AllOctets(Numerals(os))
    ensures forall part :: part in Numerals(os) ==> '.' !in part
    ensures ReadOctets(Numerals(os)) == os
  {
    forall i | 0 <= i < |os|
      ensures IsOctet(Dec(os[i])) && '.' !in Dec(os[i]) && Value(Dec(os[i])) == os[i]
    {
      ValueOfDec(os[i]);
    }
  }

  /** Printing and parsing are exact inverses of each other. */
  lemma ParseDottedIff(s: string, a: u32)
    ensures ParseDotted(s) == Some(a) <==> s == Dotted(a)
  {
    var os := Octets(a);
    NumeralsOfOctets(os);
    SplitJoin(Numerals(os), '.');
    AddressOctets(a);
    if ParseDotted(s) == Some(a) {
      var parts := Split(s, '.');
      OctetsAddress(ReadOctets(parts));
      forall i | 0 <= i < 4
        ensures parts[i] == Dec(os[i])
      {
        assert IsOctet(parts[i]);
        DecOfValue(parts[i]);
      }
      assert parts == Numerals(os);
      JoinSplit(s, '.');
    }
  }

  lemma OctetsOf(a: u32, w: nat, x: nat, y: nat, z: nat)
    requires w < 0x100 && x < 0x100 && y < 0x100 && z < 0x100
    requires a == 0x100_0000 * w + 0x1_0000 * x + 0x100 * y + z
    ensures Octets(a) == [w, x, y, z]
  {
    OctetsAddress([w, x, y, z]);
  }

  /** Four numerals, the most significant octet first. */
  lemma DottedText(a: u32, w: nat, x: nat, y: nat, z: nat)
    requires w < 0x100 && x < 0x100 && y < 0x100 && z < 0x100
    requires a == 0x100_0000 * w + 0x1_0000 * x + 0x100 * y + z
    ensures Dotted(a) == Dec(w) + "." + Dec(x) + "." + Dec(y) + "." + Dec(z)
  {
    OctetsOf(a, w, x, y, z);
    DottedOf(a, [w, x, y, z]);
  }

  lemma DottedOf(a: u32, os: seq<nat>)
    requires |os| == 4 && Octets(a) == os
    ensures Dotted(a) == Dec(os[0]) + "." + Dec(os[1]) + "." + Dec(os[2]) + "." + Dec(os[3])
  {
    var w, x, y, z := Dec(os[0]), Dec(os[1]), Dec(os[2]), Dec(os[3]);
    assert Numerals(os) == [w, x, y, z];
    JoinFour(w, x, y, z);
  }

  lemma JoinFour(w: string, x: string, y: string, z: string)
    ensures Join([w, x, y, z], '.') == w + "." + x + "." + y + "." + z
  {
    var a, b, c := w + ".", x + ".", y + ".";
    assert [w, x, y, z][1..] == [x, y, z] && [x, y, z][1..] == [y, z] && [y, z][1..] == [z];
    assert Join([y, z], '.') == c + z;
    assert Join([x, y, z], '.') == b + (c + z);
    assert Join([w, x, y, z], '.') == a + (b + (c + z));
    Assoc(a, x, ".");
    Assoc(a + b, y, ".");
    Assoc(a + b, c, z);
    Assoc(a, b, c + z);
  }

  lemma DottedHasNo(a: u32, c: char)
    requires !IsDigit(c) && c != '.'
    ensures c !in Dotted(a)
  {
    var os := Octets(a);
    DottedOf(a, os);
    forall i | 0 <= i < 4 ensures c !in Dec(os[i]) {
      ValueOfDec(os[i]);
    }
  }

  lemma DottedInjective(a: u32, b: u32)
    requires Dotted(a) == Dotted(b)
    ensures a == b
  {
    ParseDottedIff(Dotted(a), a);
    ParseDottedIff(Dotted(b), b);
  }

  // ---- CIDR blocks ----

  /** A masked network address and its prefix length. */
  datatype IPNet = IPNet(network: u32, ones: nat)
  {
    function HostBits(): (h: nat)
      requires ones <= 32
      ensures h <= 32
    {
      32 - ones
    }

    predicate Valid() {
      ones <= 32 && network % Pow2(HostBits()) == 0
    }

    /** a carries the block's prefix bits. */
    predicate Contains(a: u32)
      requires Valid()
    {
      a / Pow2(HostBits()) == network / Pow2(HostBits())
    }

    /**
     The addresses a host may have. Up to /30 the all-zeros host part names the
     network and the all-ones host part is the broadcast address; a /31 has
     neither (section 2.1 of RFC 3021), and a /32 is a single host.
     */
    predicate Usable(a: u32)
      requires Valid()
    {
      var host := a % Pow2(HostBits());
      Contains(a) && (ones <= 30 ==> host != 0 && host != Pow2(HostBits()) - 1)
    }

    /** How many usable addresses the block has. */
    function UsableCount(): int
      requires Valid()
    {
      if ones <= 30 then Pow2(HostBits()) - 2 else Pow2(HostBits())
    }
  }

  /** The prefix length and one address of it determine a block. */
  lemma BlockOf(net: IPNet, a: u32)
    requires net.Valid() && net.Contains(a)
    ensures net.network == a - a % Pow2(net.HostBits())
  {
    var m := Pow2(net.HostBits());
    assert net.network == m * (net.network / m) && a == m * (a / m) + a % m;
  }

  /** The block ends below 2^32, and its addresses are the next Pow2(h) numbers. */
  lemma BlockIsInterval(net: IPNet, a: int)
    requires net.Valid()
    ensures net.network + Pow2(net.HostBits()) <= TWO32
    ensures net.network <= a < net.network + Pow2(net.HostBits()) <==>
            0 <= a < TWO32 && net.Contains(a)
    ensures 0 <= a < TWO32 && net.Contains(a) ==> a % Pow2(net.HostBits()) == a - net.network
  {
    Pow2Sum(net.HostBits(), net.ones);
    Pow2Of32();
    BlockArithmetic(Pow2(net.HostBits()), net.network, Pow2(net.ones), a);
  }

  lemma BlockArithmetic(m: int, n: int, k: int, a: int)
    requires m > 0 && n % m == 0 && 0 <= n < m * k
    ensures n + m <= m * k
    ensures n <= a < n + m <==> a / m == n / m
    ensures a / m == n / m ==> a % m == a - n
  {
    var q, b := n / m, a / m;
    assert n == m * q;
    assert a == m * b + a % m;
    if q >= k {
      MulMonotonic(m, k, q);
    } else {
      MulMonotonic(m, q + 1, k);
    }
    if b < q {
      MulMonotonic(m, b + 1, q);
    } else if b > q {
      MulMonotonic(m, q + 1, b);
    }
  }

  lemma DivModUnique(a: int, m: int, q: int, r: int)
    requires m > 0 && a == m * q + r && 0 <= r < m
    ensures a / m == q && a % m == r
  {
    var q', r' := a / m, a % m;
    assert a == m * q' + r';
    if q' < q {
      MulMonotonic(m, q' + 1, q);
    } else if q' > q {
      MulMonotonic(m, q + 1, q');
    }
  }

  lemma MulMonotonic(m: int, x: int, y: int)
    requires m >= 0 && x <= y
    ensures m * x <= m * y && m * (x + 1) == m * x + m && m * (y + 1) == m * y + m
  {}

  // ---- The host range in uint32 arithmetic ----

  /** Offsets from `start` to `end` inclusive; `size` is the capacity asked for. */
  datatype HostRange = HostRange(start: u32, end: u32, size: u32)

  /** Go's uint32(1) << n, which is 0 for n == 32. */
  function ShiftedOne(n: nat): u32 { Wrap(Pow2(n)) }

  function HostRangeOf(hostBits: nat): HostRange {
    OffsetRange(hostBits, ShiftedOne(hostBits))
  }

  function OffsetRange(hostBits: nat, totalHosts: u32): HostRange {
    if hostBits <= 1 then
      var end := Wrap(totalHosts - 1);
      HostRange(0, end, Wrap(Wrap(end - 0) + 1))
    else
      var end := Wrap(totalHosts - 2);
      HostRange(1, end, Wrap(Wrap(end - 1) + 1))
  }

  /** Wrapping is harmless when the block has m addresses, 2^32 included. */
  lemma OffsetRangeDenotes(h: nat, m: nat)
    requires if h <= 1 then 1 <= m <= 2 else 4 <= m <= TWO32
    ensures var r := OffsetRange(h, Wrap(m));
            && r.start == (if h <= 1 then 0 else 1)
            && r.end == (if h <= 1 then m - 1 else m - 2)
            && r.size == r.end - r.start + 1
  {
    if m == TWO32 {
      assert Wrap(m) == 0 && Wrap(-2) == TWO32 - 2;
    } else {
      WrapNoop(m);
      WrapNoop(if h <= 1 then m - 1 else m - 2);
    }
    WrapNoop(if h <= 1 then m - 1 else m - 3);
    WrapNoop(if h <= 1 then m else m - 2);
  }

  lemma WrapNoop(x: int)
    requires 0 <= x < TWO32
    ensures Wrap(x) == x
  {}

  /** What the wrapped computations denote, for every number of host bits. */
  lemma HostRangeDenotes(h: nat)
    requires h <= 32
    ensures var r := HostRangeOf(h);
            && r.start == (if h <= 1 then 0 else 1)
            && r.end == (if h <= 1 then Pow2(h) - 1 else Pow2(h) - 2)
            && r.start <= r.end < TWO32 - 1
            && r.size == r.end - r.start + 1
  {
    Pow2Of32();
    Pow2Monotonic(h, 32);
    Pow2Monotonic(if h <= 1 then h else 2, if h <= 1 then 1 else h);
    assert Pow2(1) == 2 && Pow2(2) == 4;
    OffsetRangeDenotes(h, Pow2(h));
  }

  /** The offsets of the range are exactly the usable addresses, without wrapping. */
  lemma HostRangeIsUsable(net: IPNet, a: int)
    requires net.Valid()
    ensures var r := HostRangeOf(net.HostBits());
            (r.start <= a - net.network <= r.end) <==> (0 <= a < TWO32 && net.Usable(a))
  {
    HostRangeDenotes(net.HostBits());
    BlockIsInterval(net, a);
  }

  // ---- Counting the usable addresses ----

  function UsableSet(net: IPNet): (us: set<u32>)
    requires net.Valid()
    ensures forall a: u32 :: a in us <==> net.Usable(a)
  {
    forall a: u32 ensures net.Usable(a) ==> net.network <= a < net.network + Pow2(net.HostBits()) {
      BlockIsInterval(net, a);
    }
    set a: u32 | net.network <= a < net.network + Pow2(net.HostBits()) && net.Usable(a)
  }

  lemma {:induction false} IntervalSize(s: set<int>, lo: int, hi: int)
    requires lo <= hi
    requires forall a :: a in s <==> lo <= a < hi
    ensures |s| == hi - lo
    decreases hi - lo
  {
    if lo < hi {
      IntervalSize(s - {hi - 1}, lo, hi - 1);
      assert s == (s - {hi - 1}) + {hi - 1};
    } else {
      assert forall a :: a !in s;
    }
  }

  lemma UsableSetSize(net: IPNet)
    requires net.Valid()
    ensures |UsableSet(net)| == net.UsableCount()
  {
    var r := HostRangeOf(net.HostBits());
    HostRangeDenotes(net.HostBits());
    var us: set<int> := UsableSet(net);
    forall a: int
      ensures a in us <==> net.network + r.start <= a < net.network + r.end + 1
    {
      HostRangeIsUsable(net, a);
    }
    IntervalSize(us, net.network + r.start, net.network + r.end + 1);
  }
}
