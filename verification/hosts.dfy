/** The host statistics of finished_script/main.py: the usable host
    addresses of the free blocks (get_host_ips), their lowest and highest
    (get_free_ips_min_max) and the number of /m subnets they would fill
    (get_available_subnets_of_size). The host addresses are a ghost set; the
    code computes their count, minimum and maximum block by block. */
module HostStats {
  import opened Cidr
  import opened Wrappers
  import opened FreeSpace

  /** What `hosts()` yields for a /31 or a /32 block; blocks up to a /30
      yield every address but the network and the broadcast address under
      every rule.
      NoHosts: the zero-host convention, under which a /31 or a /32 has no
      usable host.
      Rfc3021: both addresses of a /31 (RFC 3021) and nothing for a /32,
      as `hosts()` does in Python 3 before 3.9.
      AllAddresses: both addresses of a /31 and the single address of a
      /32, as `hosts()` does from Python 3.9 on. */
  datatype PointToPoint = NoHosts | Rfc3021 | AllAddresses

  /** Under the rule, `hosts()` yields every address of the block. */
  predicate AllAreHosts(n: Network, rule: PointToPoint)
  {
    match rule
    case NoHosts => false
    case Rfc3021 => n.length == 31
    case AllAddresses => n.length >= 31
  }

  /** The first host address of the block. */
  function HostLow(n: Network, rule: PointToPoint): nat
  {
    if AllAreHosts(n, rule) then n.address else n.address + 1
  }

  /** One past the last host address of the block. */
  function HostEnd(n: Network, rule: PointToPoint): nat
  {
    if AllAreHosts(n, rule) then n.address + Size(n) else Broadcast(n)
  }

  /** `n.hosts()` as a set. */
  ghost function Hosts(n: Network, rule: PointToPoint): set<nat>
  {
    Interval(HostLow(n, rule), HostEnd(n, rule))
  }

  /** The hosts of a block are its addresses without the network and the
      broadcast address; a /31 or /32 has none, or all of its addresses,
      according to the rule. */
  lemma HostsOfBlock(n: Network, rule: PointToPoint)
    ensures Hosts(n, rule) <= Range(n)
    ensures n.length <= 30 ==> Hosts(n, rule) == Range(n) - {n.address, Broadcast(n)}
    ensures n.length >= 31 && rule == NoHosts ==> Hosts(n, rule) == {}
    ensures n.length == 31 && rule == Rfc3021 ==> Hosts(n, rule) == Range(n)
    ensures n.length == 32 && rule == Rfc3021 ==> Hosts(n, rule) == {}
    ensures n.length >= 31 && rule == AllAddresses ==> Hosts(n, rule) == Range(n)
  {
    if n.length <= 30 {
      Pow2Monotone(1, 32 - n.length);
    }
    if n.length >= 31 && !AllAreHosts(n, rule) {
      assert forall a | a in Hosts(n, rule) :: InInterval(a, HostLow(n, rule), HostEnd(n, rule));
    }
  }

  lemma HostsSize(n: Network, rule: PointToPoint)
    ensures |Hosts(n, rule)| == if HostLow(n, rule) < HostEnd(n, rule) then HostEnd(n, rule) - HostLow(n, rule) else 0
  {
    if HostLow(n, rule) < HostEnd(n, rule) {
      IntervalSize(HostLow(n, rule), HostEnd(n, rule));
    } else {
      assert Hosts(n, rule) == {} by {
        assert forall a | a in Hosts(n, rule) :: InInterval(a, HostLow(n, rule), HostEnd(n, rule));
      }
    }
  }

  /** A block up to a /30 has at least four addresses. */
  lemma FourOrMore(n: Network)
    ensures n.length <= 30 ==> Size(n) >= 4
  {
    if n.length <= 30 {
      Pow2Monotone(1, 32 - n.length);
    }
  }

  /** The number of hosts of a block: 2^(32 - length) - 2 up to a /30. */
  function HostCount(n: Network, rule: PointToPoint): (c: nat)
    ensures c == |Hosts(n, rule)|
    ensures n.length <= 30 ==> c == Size(n) - 2
    ensures n.length == 31 ==> c == (if rule == NoHosts then 0 else 2)
    ensures n.length == 32 ==> c == (if rule == AllAddresses then 1 else 0)
  {
    HostsSize(n, rule);
    FourOrMore(n);
    if HostLow(n, rule) < HostEnd(n, rule) then HostEnd(n, rule) - HostLow(n, rule) else 0
  }

  /** The union of the hosts of a list of blocks. */
  ghost function HostSet(blocks: seq<Network>, rule: PointToPoint): set<nat>
  {
    if blocks == [] then {} else Hosts(blocks[0], rule) + HostSet(blocks[1..], rule)
  }

  lemma {:induction false} HostSetConcat(a: seq<Network>, b: seq<Network>, rule: PointToPoint)
    ensures HostSet(a + b, rule) == HostSet(a, rule) + HostSet(b, rule)
  {
    if a != [] {
      assert (a + b)[0] == a[0] && (a + b)[1..] == a[1..] + b;
      HostSetConcat(a[1..], b, rule);
    } else {
      assert a + b == b;
    }
  }

  /** Every host address is a free address. */
  lemma {:induction false} HostSetWithin(blocks: seq<Network>, rule: PointToPoint)
    ensures HostSet(blocks, rule) <= Span(blocks)
  {
    if blocks != [] {
      HostsOfBlock(blocks[0], rule);
      HostSetWithin(blocks[1..], rule);
    }
  }

  /** A host address belongs to the hosts of one of the blocks. */
  lemma {:induction false} HostSetMember(blocks: seq<Network>, rule: PointToPoint, x: nat)
    requires x in HostSet(blocks, rule)
    ensures exists j :: 0 <= j < |blocks| && x in Hosts(blocks[j], rule)
  {
    if x !in Hosts(blocks[0], rule) {
      HostSetMember(blocks[1..], rule, x);
      var j :| 0 <= j < |blocks[1..]| && x in Hosts(blocks[1..][j], rule);
      assert blocks[1..][j] == blocks[j + 1];
    }
  }

  /** The sum of the per-block host counts. */
  function TotalHosts(blocks: seq<Network>, rule: PointToPoint): nat
  {
    if blocks == [] then 0 else HostCount(blocks[0], rule) + TotalHosts(blocks[1..], rule)
  }

  /** No host address is counted twice when the blocks are disjoint: the
      number of host addresses is the sum of the per-block counts. */
  lemma {:induction false} HostSetSize(blocks: seq<Network>, rule: PointToPoint)
    requires PairwiseDisjoint(blocks)
    ensures |HostSet(blocks, rule)| == TotalHosts(blocks, rule)
  {
    if blocks != [] {
      var first, rest := blocks[0], blocks[1..];
      HostsApart(blocks, rule);
      HostSetSize(rest, rule);
      HostsOfBlock(first, rule);
      assert HostSet(blocks, rule) == Hosts(first, rule) + HostSet(rest, rule);
    }
  }

  /** The hosts of the first of disjoint blocks are none of the hosts of
      the others, and the others are still disjoint. */
  lemma HostsApart(blocks: seq<Network>, rule: PointToPoint)
    requires blocks != [] && PairwiseDisjoint(blocks)
    ensures PairwiseDisjoint(blocks[1..])
    ensures Hosts(blocks[0], rule) !! HostSet(blocks[1..], rule)
  {
    var first, rest := blocks[0], blocks[1..];
    forall i, j | 0 <= i < |rest| && 0 <= j < |rest| && i != j
      ensures Disjoint(rest[i], rest[j])
    {
      assert rest[i] == blocks[i + 1] && rest[j] == blocks[j + 1];
    }
    forall j | 0 <= j < |rest|
      ensures Disjoint(rest[j], first)
    {
      assert rest[j] == blocks[j + 1];
    }
    SpanDisjointFrom(rest, first);
    HostSetWithin(rest, rule);
    HostsOfBlock(first, rule);
    forall a | a in Hosts(first, rule)
      ensures a !in HostSet(rest, rule)
    {
      assert a !in Span(rest) * Range(first);
    }
  }

  /** The usable host addresses of the free blocks of the VPC. */
  ghost function FreeHosts(vpc: Network, subnets: seq<Network>, rule: PointToPoint): set<nat>
  {
    HostSet(FreeCidrs(vpc, subnets), rule)
  }
  /** In the example 10.0.0.0/16 minus 10.0.0.0/24 and 10.0.1.0/24, the
      65536 - 512 free addresses in seven blocks hold 65024 - 2 * 7 = 65010
      host addresses. The aggregate estimate gives 253 /24 subnets although
      254 whole /24 blocks are free: it divides host addresses, not
      addresses, by 256. */
  lemma TenZeroHosts(vpc: Network, first: Network, second: Network, rule: PointToPoint)
    requires vpc == Prefix(167772160, 16)
    requires first == Prefix(167772160, 24) && second == Prefix(167772416, 24)
    ensures |FreeHosts(vpc, [first, second], rule)| == 65010
    ensures SubnetsOfSize(|FreeHosts(vpc, [first, second], rule)|, 24) == Success(253)
  {
    var free := FreeCidrs(vpc, [first, second]);
    assert PairwiseDisjoint(free) by {
      FreeCidrsInvariant(vpc, [first, second]);
    }
    HostSetSize(free, rule);
    TenZeroScenario(vpc, first, second);
    TenZeroTotal(free, rule);
    Pow2Table();
  }

  /** The host counts of the seven free blocks of the example add up. */
  lemma TenZeroTotal(free: seq<Network>, rule: PointToPoint)
    requires free ==
      [Prefix(167804928, 17), Prefix(167788544, 18), Prefix(167780352, 19), Prefix(167776256, 20),
       Prefix(167774208, 21), Prefix(167773184, 22), Prefix(167772672, 23)]
    ensures TotalHosts(free, rule) == 65010
  {
    TenZeroTail(free[3..], rule);
    Pow2Table();
    TotalHostsCons(free[2], free[3..], rule);
    assert free[2..] == [free[2]] + free[3..];
    TotalHostsCons(free[1], free[2..], rule);
    assert free[1..] == [free[1]] + free[2..];
    TotalHostsCons(free[0], free[1..], rule);
    assert free == [free[0]] + free[1..];
  }

  /** The four smallest free blocks of the example hold 7672 hosts. */
  lemma TenZeroTail(tail: seq<Network>, rule: PointToPoint)
    requires tail == [Prefix(167776256, 20), Prefix(167774208, 21), Prefix(167773184, 22), Prefix(167772672, 23)]
    ensures TotalHosts(tail, rule) == 7672
  {
    Pow2Table();
    TotalHostsCons(tail[3], [], rule);
    assert tail[3..] == [tail[3]] + [];
    TotalHostsCons(tail[2], tail[3..], rule);
    assert tail[2..] == [tail[2]] + tail[3..];
    TotalHostsCons(tail[1], tail[2..], rule);
    assert tail[1..] == [tail[1]] + tail[2..];
    TotalHostsCons(tail[0], tail[1..], rule);
    assert tail == [tail[0]] + tail[1..];
  }

  lemma TotalHostsCons(n: Network, rest: seq<Network>, rule: PointToPoint)
    ensures TotalHosts([n] + rest, rule) == HostCount(n, rule) + TotalHosts(rest, rule)
  {
    assert ([n] + rest)[1..] == rest;
  }

  /** How many host addresses there are and the lowest and highest of them. */
  datatype HostSummary = HostSummary(count: nat, lowest: Option<nat>, highest: Option<nat>)

  /** `get_host_ips`, summarised: walks the free blocks as the source does
      and keeps the number of host addresses and the lowest and highest one
      instead of the addresses themselves. */
  method GetHostIps(vpc: Network, subnets: seq<Network>, rule: PointToPoint) returns (summary: HostSummary)
    ensures summary.count == |FreeHosts(vpc, subnets, rule)| == TotalHosts(FreeCidrs(vpc, subnets), rule)
    ensures IsLowest(summary.lowest, FreeHosts(vpc, subnets, rule))
    ensures IsHighest(summary.highest, FreeHosts(vpc, subnets, rule))
  {
    var free := GetFreeCidrs(vpc, subnets);
    var count := 0;
    var lowest: Option<nat> := None;
    var highest: Option<nat> := None;
    for i := 0 to |free|
      invariant count == |HostSet(free[..i], rule)|
      invariant IsLowest(lowest, HostSet(free[..i], rule)) && IsHighest(highest, HostSet(free[..i], rule))
    {
      var network := free[i];
      var low, end := HostLow(network, rule), HostEnd(network, rule);
      ScanStep(free, i, rule, lowest, highest);
      lowest, highest := Lower(lowest, low, end), Upper(highest, low, end);
      count := count + HostCount(network, rule);
    }
    assert free[..|free|] == free;
    HostSetSize(free, rule);
    summary := HostSummary(count, lowest, highest);
  }

  /** The least and greatest element of a non-empty interval. */
  lemma IntervalBounds(lo: nat, hi: nat)
    ensures forall a | a in Interval(lo, hi) :: lo <= a < hi
    ensures lo < hi ==> lo in Interval(lo, hi) && hi - 1 in Interval(lo, hi)
    ensures lo >= hi ==> Interval(lo, hi) == {}
  {
    assert forall a | a in Interval(lo, hi) :: InInterval(a, lo, hi);
  }

  /** `lowest` is the least element of `hosts`, or None when it is empty. */
  ghost predicate IsLowest(lowest: Option<nat>, hosts: set<nat>)
  {
    (lowest.None? <==> hosts == {}) &&
    (lowest.Some? ==> lowest.value in hosts && forall h | h in hosts :: lowest.value <= h)
  }

  /** `highest` is the greatest element of `hosts`, or None when it is empty. */
  ghost predicate IsHighest(highest: Option<nat>, hosts: set<nat>)
  {
    (highest.None? <==> hosts == {}) &&
    (highest.Some? ==> highest.value in hosts && forall h | h in hosts :: h <= highest.value)
  }

  /** The running minimum after the addresses from lo up to hi. */
  function Lower(lowest: Option<nat>, lo: nat, hi: nat): Option<nat>
  {
    if lo < hi && (lowest.None? || lo < lowest.value) then Some(lo) else lowest
  }

  /** The running maximum after the addresses from lo up to hi. */
  function Upper(highest: Option<nat>, lo: nat, hi: nat): Option<nat>
  {
    if lo < hi && (highest.None? || hi - 1 > highest.value) then Some(hi - 1) else highest
  }

  /** Lower turns the minimum of a set into the minimum of the set with an
      interval added. */
  lemma LowestStep(lowest: Option<nat>, hosts: set<nat>, lo: nat, hi: nat)
    requires IsLowest(lowest, hosts)
    ensures IsLowest(Lower(lowest, lo, hi), hosts + Interval(lo, hi))
  {
    IntervalBounds(lo, hi);
  }

  /** Upper turns the maximum of a set into the maximum of the set with an
      interval added. */
  lemma HighestStep(highest: Option<nat>, hosts: set<nat>, lo: nat, hi: nat)
    requires IsHighest(highest, hosts)
    ensures IsHighest(Upper(highest, lo, hi), hosts + Interval(lo, hi))
  {
    IntervalBounds(lo, hi);
  }

  /** One step of the scan in get_host_ips: block i extends the running
      minimum, maximum and count of the hosts of the blocks before it to
      those of the blocks up to it. */
  lemma ScanStep(free: seq<Network>, i: nat, rule: PointToPoint, lowest: Option<nat>, highest: Option<nat>)
    requires PairwiseDisjoint(free) && i < |free|
    requires IsLowest(lowest, HostSet(free[..i], rule)) && IsHighest(highest, HostSet(free[..i], rule))
    ensures IsLowest(Lower(lowest, HostLow(free[i], rule), HostEnd(free[i], rule)), HostSet(free[..i + 1], rule))
    ensures IsHighest(Upper(highest, HostLow(free[i], rule), HostEnd(free[i], rule)), HostSet(free[..i + 1], rule))
    ensures |HostSet(free[..i + 1], rule)| == |HostSet(free[..i], rule)| + HostCount(free[i], rule)
  {
    var low, end := HostLow(free[i], rule), HostEnd(free[i], rule);
    AddHosts(free, i, rule);
    LowestStep(lowest, HostSet(free[..i], rule), low, end);
    HighestStep(highest, HostSet(free[..i], rule), low, end);
  }

  /** Free block i adds its own hosts, none of which an earlier block holds. */
  lemma AddHosts(free: seq<Network>, i: nat, rule: PointToPoint)
    requires PairwiseDisjoint(free) && i < |free|
    ensures HostSet(free[..i + 1], rule) == HostSet(free[..i], rule) + Hosts(free[i], rule)
    ensures |HostSet(free[..i + 1], rule)| == |HostSet(free[..i], rule)| + HostCount(free[i], rule)
  {
    var earlier, mine := HostSet(free[..i], rule), Hosts(free[i], rule);
    assert free[..i + 1] == free[..i] + [free[i]];
    HostSetConcat(free[..i], [free[i]], rule);
    forall j | 0 <= j < |free[..i]|
      ensures Disjoint(free[..i][j], free[i])
    {
      assert free[..i][j] == free[j];
    }
    SpanDisjointFrom(free[..i], free[i]);
    HostSetWithin(free[..i], rule);
    HostsOfBlock(free[i], rule);
    forall a | a in earlier
      ensures a !in mine
    {
      assert a !in Span(free[..i]) * Range(free[i]);
    }
    assert earlier * mine == {};
  }

  /** The ValueError `min()` and `max()` raise on an empty set. */
  datatype MinMaxError = EmptySequence

  /** `get_free_ips_min_max`: the lowest and highest free host address, each
      a host address of some free block, or the error min() raises when no
      free host address is left. */
  method GetFreeIpsMinMax(vpc: Network, subnets: seq<Network>, rule: PointToPoint)
    returns (r: Result<(nat, nat), MinMaxError>)
    ensures r.Failure? <==> FreeHosts(vpc, subnets, rule) == {}
    ensures r.Success? ==>
      var (lo, hi) := r.value;
      lo <= hi && lo in FreeHosts(vpc, subnets, rule) && hi in FreeHosts(vpc, subnets, rule) &&
      (forall h | h in FreeHosts(vpc, subnets, rule) :: lo <= h <= hi) &&
      (exists j :: 0 <= j < |FreeCidrs(vpc, subnets)| && lo in Hosts(FreeCidrs(vpc, subnets)[j], rule)) &&
      (exists j :: 0 <= j < |FreeCidrs(vpc, subnets)| && hi in Hosts(FreeCidrs(vpc, subnets)[j], rule))
  {
    var summary := GetHostIps(vpc, subnets, rule);
    if summary.lowest.None? || summary.highest.None? {
      return Failure(EmptySequence);
    }
    var lo, hi := summary.lowest.value, summary.highest.value;
    HostSetMember(FreeCidrs(vpc, subnets), rule, lo);
    HostSetMember(FreeCidrs(vpc, subnets), rule, hi);
    return Success((lo, hi));
  }

  /** Python's float has an 11-bit exponent: 2^1024 is the first power of
      two it cannot hold, and 2^-1074 the smallest it can. */
  const FloatExponentLimit: nat := 1024
  const FloatSmallestExponent: nat := 1074

  /** The exceptions `math.pow`, `/` and `math.floor` raise on line 70-72:
      OverflowError when 2^(32 - netmask) is too large for a float,
      ZeroDivisionError when it is too small and rounds to 0.0, and
      OverflowError when the quotient is too large and becomes infinity. */
  datatype SubnetsError = PowOverflow | ZeroDivision | FloorOverflow

  /** The `floor(hosts / 2^(32 - netmask))` estimate of how many /netmask
      subnets the free hosts fill. Up to a /32 the power is a whole number
      and the estimate the quotient rounded down; above a /32 it is a
      fraction 2^-(netmask - 32), and the quotient a multiple of the hosts. */
  function SubnetsOfSize(hosts: nat, netmask: int): (r: Result<nat, SubnetsError>)
    ensures 32 - netmask >= FloatExponentLimit ==> r == Failure(PowOverflow)
    ensures netmask - 32 > FloatSmallestExponent ==> r == Failure(ZeroDivision)
    ensures 32 - FloatExponentLimit < netmask <= 32 ==>
      r.Success? && r.value * Pow2(32 - netmask) <= hosts < (r.value + 1) * Pow2(32 - netmask)
    ensures 32 < netmask <= 32 + FloatSmallestExponent ==>
      (r.Success? <==> hosts * Pow2(netmask - 32) < Pow2(FloatExponentLimit)) &&
      (r.Success? ==> r.value == hosts * Pow2(netmask - 32)) &&
      (r.Failure? ==> r.error == FloorOverflow)
  {
    if 32 - netmask >= FloatExponentLimit then Failure(PowOverflow)
    else if netmask - 32 > FloatSmallestExponent then Failure(ZeroDivision)
    else if netmask <= 32 then
      var size := Pow2(32 - netmask);
      DivBounds(hosts, size);
      Success(hosts / size)
    else ScaledHosts(hosts, netmask - 32)
  }

  /** hosts / 2^-k for a fraction 2^-k that a float holds exactly: the
      quotient hosts * 2^k, or the OverflowError of `math.floor` once it
      reaches 2^1024 and becomes infinity. */
  function ScaledHosts(hosts: nat, k: nat): (r: Result<nat, SubnetsError>)
    ensures r.Success? <==> hosts * Pow2(k) < Pow2(FloatExponentLimit)
    ensures r.Success? ==> r.value == hosts * Pow2(k)
    ensures r.Failure? ==> r.error == FloorOverflow
  {
    Overflows(hosts, k);
    if hosts > 0 && (k >= FloatExponentLimit || hosts >= Pow2(FloatExponentLimit - k)) then
      Failure(FloorOverflow)
    else
      ScaleOrder(hosts, 0, Pow2(k));
      Success(hosts * Pow2(k))
  }

  lemma DivBounds(h: nat, p: nat)
    requires p > 0
    ensures h / p >= 0
    ensures (h / p) * p <= h < (h / p + 1) * p
  {
    var q, r := h / p, h % p;
    assert h == q * p + r;
    assert (q + 1) * p == q * p + p;
  }

  /** hosts * 2^k reaches 2^1024 exactly when hosts reaches 2^(1024 - k), or
      for k from 1024 on when there is any host at all. */
  lemma Overflows(hosts: nat, k: nat)
    ensures hosts * Pow2(k) >= Pow2(FloatExponentLimit) <==>
      hosts > 0 && (k >= FloatExponentLimit || hosts >= Pow2(FloatExponentLimit - k))
  {
    var p, limit := Pow2(k), Pow2(FloatExponentLimit);
    if k >= FloatExponentLimit {
      if k > FloatExponentLimit {
        Pow2Monotone(FloatExponentLimit, k);
      }
      ScaleOrder(hosts, 1, p);
    } else {
      var a := Pow2(FloatExponentLimit - k);
      Pow2Add(FloatExponentLimit - k, k);
      assert limit == a * p;
      ScaleOrder(hosts, a, p);
    }
  }

  /** Scaling by a positive factor keeps the order of two numbers. */
  lemma ScaleOrder(x: nat, y: nat, p: nat)
    requires p > 0
    ensures x * p >= y * p <==> x >= y
  {
    if x >= y {
      assert x * p - y * p == (x - y) * p;
    } else {
      assert y * p - x * p == (y - x) * p;
    }
  }

  /** `get_available_subnets_of_size`: the aggregate estimate over all free
      host addresses, which ignores whether they are contiguous, or the
      exception the float arithmetic raises. */
  method GetAvailableSubnetsOfSize(vpc: Network, subnets: seq<Network>, netmask: int, rule: PointToPoint)
    returns (r: Result<nat, SubnetsError>)
    ensures r == SubnetsOfSize(|FreeHosts(vpc, subnets, rule)|, netmask)
    ensures 32 - FloatExponentLimit < netmask <= 32 ==>
      r.Success? &&
      r.value * Pow2(32 - netmask) <= |FreeHosts(vpc, subnets, rule)| < (r.value + 1) * Pow2(32 - netmask)
    ensures netmask - 32 > FloatSmallestExponent ==> r == Failure(ZeroDivision)
  {
    var summary := GetHostIps(vpc, subnets, rule);
    r := SubnetsOfSize(summary.count, netmask);
  }
}
