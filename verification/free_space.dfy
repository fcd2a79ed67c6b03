/** The free-space engine of finished_script/main.py: starting from the VPC
    block, subtract each allocated subnet block from the free block that
    holds it. The VPC and subnet blocks are parameters here; in the source
    they come from two cloud lookups. */
module FreeSpace {
  import opened Cidr
  import opened Exclusion

  // ---------------------------------------------------------------------
  // subtract_network and is_same_network

  /** `subtract_network(container, contained)`: the blocks of `container`
      left once `contained` is removed, or nothing when `contained` is not a
      subnet of `container`. Subtracting a block from itself also yields
      nothing. */
  function SubtractNetwork(container: Network, contained: Network): (r: seq<Network>)
    ensures r == [] <==> !SubnetOf(contained, container) || contained == container
  {
    if SubnetOf(contained, container) then
      ExcludeShape(container, contained);
      SubnetLength(contained, container);
      Exclude(container, contained)
    else []
  }

  /** For a subnet, the returned blocks are pairwise disjoint, miss
      `contained`, are aligned blocks longer than `container` and lie inside
      it, and together with `contained` they make up exactly `container`. */
  lemma SubtractNetworkPartition(container: Network, contained: Network)
    requires SubnetOf(contained, container)
    ensures PairwiseDisjoint(SubtractNetwork(container, contained))
    ensures forall j | 0 <= j < |SubtractNetwork(container, contained)| ::
      SubtractNetwork(container, contained)[j].length > container.length &&
      SubnetOf(SubtractNetwork(container, contained)[j], container) &&
      Disjoint(SubtractNetwork(container, contained)[j], contained)
    ensures Span(SubtractNetwork(container, contained)) + Range(contained) == Range(container)
    ensures Span(SubtractNetwork(container, contained)) * Range(contained) == {}
  {
    ExcludeShape(container, contained);
    ExcludeDisjoint(container, contained);
    ExcludeCovers(container, contained);
  }

  /** The netmask of a prefix length as a 32-bit number. */
  function Netmask(length: nat): int
    requires length <= 32
  {
    AddressCount - Pow2(32 - length)
  }

  /** A longer prefix has the larger netmask. */
  lemma NetmaskOrder(x: nat, y: nat)
    requires x <= 32 && y <= 32
    ensures Netmask(x) < Netmask(y) <==> x < y
  {
    if x < y {
      Pow2Monotone(32 - y, 32 - x);
    } else if y < x {
      Pow2Monotone(32 - x, 32 - y);
    }
  }

  /** `a.compare_networks(b)`: order by network address, then by netmask,
      so that at equal addresses the shorter prefix comes first. */
  function CompareNetworks(a: Network, b: Network): (c: int)
    ensures c == 0 <==> a == b
    ensures c < 0 <==> a.address < b.address || (a.address == b.address && a.length < b.length)
  {
    NetmaskOrder(a.length, b.length);
    NetmaskOrder(b.length, a.length);
    if a.address < b.address then -1
    else if a.address > b.address then 1
    else if Netmask(a.length) < Netmask(b.length) then -1
    else if Netmask(a.length) > Netmask(b.length) then 1
    else 0
  }

  /** `is_same_network(a, b)`: compare_networks reports equality, which holds
      exactly for the same network address and prefix length. */
  function IsSameNetwork(a: Network, b: Network): (r: bool)
    ensures r <==> a.address == b.address && a.length == b.length
  {
    CompareNetworks(a, b) == 0
  }

  // ---------------------------------------------------------------------
  // One pass of the inner loop of get_free_cidrs

  /** The test that removes a free block: it is the subnet itself, or
      subtracting the subnet from it leaves something. It holds exactly when
      the subnet lies inside the free block. */
  function Hits(free: Network, subnet: Network): (r: bool)
    ensures r <==> SubnetOf(subnet, free)
  {
    IsSameNetwork(free, subnet) || |SubtractNetwork(free, subnet)| != 0
  }

  /** The index of the first free block the subnet hits, or the length of
      the list when there is none. */
  function FirstHit(free: seq<Network>, subnet: Network): (k: nat)
    ensures k <= |free|
    ensures forall j | 0 <= j < k :: !Hits(free[j], subnet)
    ensures k < |free| ==> Hits(free[k], subnet)
  {
    if free == [] then 0
    else if Hits(free[0], subnet) then 0
    else 1 + FirstHit(free[1..], subnet)
  }

  /** `list.remove(x)`: drop the first entry equal to x. */
  function RemoveFirst(xs: seq<Network>, x: Network): seq<Network>
    requires x in xs
  {
    if xs[0] == x then xs[1..]
    else [xs[0]] + RemoveFirst(xs[1..], x)
  }

  /** list.remove drops exactly one copy of the entry. */
  lemma {:induction false} RemoveFirstCount(xs: seq<Network>, x: Network)
    requires x in xs
    ensures multiset(RemoveFirst(xs, x)) == multiset(xs) - multiset{x}
  {
    assert xs == [xs[0]] + xs[1..];
    if xs[0] != x {
      RemoveFirstCount(xs[1..], x);
    }
  }

  /** When entry k has no equal entry before it, list.remove drops entry k. */
  lemma {:induction false} RemoveFirstAt(xs: seq<Network>, k: nat)
    requires k < |xs| && xs[k] !in xs[..k]
    ensures RemoveFirst(xs, xs[k]) == xs[..k] + xs[k + 1..]
  {
    if k == 0 {
      assert xs[..0] + xs[1..] == xs[1..];
    } else {
      var x, tail := xs[k], xs[1..];
      assert xs[0] != x by {
        assert xs[0] == xs[..k][0];
      }
      assert tail[k - 1] == x;
      assert x !in tail[..k - 1] by {
        assert tail[..k - 1] == xs[..k][1..];
      }
      RemoveFirstAt(tail, k - 1);
      assert RemoveFirst(xs, x) == [xs[0]] + (tail[..k - 1] + tail[k..]);
      assert xs[..k] == [xs[0]] + tail[..k - 1];
      assert xs[k + 1..] == tail[k..];
    }
  }

  /** What one pass of the inner loop does to the free list: the first free
      block holding the subnet is removed and the blocks left of it after
      subtracting the subnet are appended; without such a block the list
      stays as it is. */
  function SubtractSubnet(free: seq<Network>, subnet: Network): seq<Network>
  {
    var k := FirstHit(free, subnet);
    if k == |free| then free
    else free[..k] + free[k + 1..] + SubtractNetwork(free[k], subnet)
  }

  /** Every block inside the union of the free blocks lies inside a single
      free block. */
  ghost predicate Maximal(free: seq<Network>)
  {
    forall b: Network :: Range(b) <= Span(free) ==> exists j :: 0 <= j < |free| && SubnetOf(b, free[j])
  }

  /** The list without entry k, entry by entry. */
  lemma WithoutEntry(free: seq<Network>, k: nat, rest: seq<Network>)
    requires k < |free| && rest == free[..k] + free[k + 1..]
    ensures |rest| == |free| - 1
    ensures forall j | 0 <= j < k :: rest[j] == free[j]
    ensures forall j | k <= j < |rest| :: rest[j] == free[j + 1]
  {
  }

  /** The set step behind SubtractSubnetSpan: taking block X out of F and
      putting back X minus S takes S out of F. */
  lemma ReplaceBlock(f: set<nat>, x: set<nat>, s: set<nat>, rest: set<nat>, pieces: set<nat>)
    requires rest == f - x && x <= f
    requires pieces + s == x && pieces * s == {}
    ensures rest + pieces == f - s
  {
    forall a | a in rest + pieces
      ensures a in f - s
    {
      assert a !in pieces * s;
    }
  }

  /** A pass keeps the free blocks pairwise disjoint. */
  lemma SubtractSubnetDisjoint(free: seq<Network>, subnet: Network)
    requires PairwiseDisjoint(free)
    ensures PairwiseDisjoint(SubtractSubnet(free, subnet))
  {
    var k := FirstHit(free, subnet);
    if k < |free| {
      var x := free[k];
      var rest := free[..k] + free[k + 1..];
      var pieces := SubtractNetwork(x, subnet);
      var next := rest + pieces;
      SubtractNetworkPartition(x, subnet);
      WithoutEntry(free, k, rest);
      forall i, j | 0 <= i < |next| && 0 <= j < |next| && i != j
        ensures Disjoint(next[i], next[j])
      {
        if i < |rest| && j < |rest| {
          assert next[i] == free[if i < k then i else i + 1];
          assert next[j] == free[if j < k then j else j + 1];
        } else if i < |rest| {
          assert next[i] == free[if i < k then i else i + 1];
          assert next[j] == pieces[j - |rest|];
          SubnetDisjoint(next[j], x, next[i]);
        } else if j < |rest| {
          assert next[j] == free[if j < k then j else j + 1];
          assert next[i] == pieces[i - |rest|];
          SubnetDisjoint(next[i], x, next[j]);
        } else {
          assert next[i] == pieces[i - |rest|] && next[j] == pieces[j - |rest|];
        }
      }
    }
  }

  /** When the subnet hits, exactly its addresses leave the union of the
      free blocks; otherwise the list is unchanged. */
  lemma SubtractSubnetSpan(free: seq<Network>, subnet: Network)
    requires PairwiseDisjoint(free)
    ensures FirstHit(free, subnet) == |free| ==> SubtractSubnet(free, subnet) == free
    ensures FirstHit(free, subnet) < |free| ==> Span(SubtractSubnet(free, subnet)) == Span(free) - Range(subnet)
  {
    var k := FirstHit(free, subnet);
    if k < |free| {
      var x := free[k];
      var rest := free[..k] + free[k + 1..];
      var pieces := SubtractNetwork(x, subnet);
      assert rest + pieces == SubtractSubnet(free, subnet);
      SubtractNetworkPartition(x, subnet);
      SpanRemove(free, k);
      SpanConcat(rest, pieces);
      RangeInSpan(free, k);
      ReplaceBlock(Span(free), Range(x), Range(subnet), Span(rest), Span(pieces));
    }
  }

  /** After a hit, every free block misses the subnet. */
  lemma SubtractSubnetMisses(free: seq<Network>, subnet: Network)
    requires PairwiseDisjoint(free) && FirstHit(free, subnet) < |free|
    ensures forall j | 0 <= j < |SubtractSubnet(free, subnet)| :: Disjoint(SubtractSubnet(free, subnet)[j], subnet)
  {
    var k := FirstHit(free, subnet);
    var x := free[k];
    var rest := free[..k] + free[k + 1..];
    var pieces := SubtractNetwork(x, subnet);
    var next := rest + pieces;
    assert next == SubtractSubnet(free, subnet);
    SubtractNetworkPartition(x, subnet);
    WithoutEntry(free, k, rest);
    forall j | 0 <= j < |next|
      ensures Disjoint(next[j], subnet)
    {
      if j < |rest| {
        var i := if j < k then j else j + 1;
        assert next[j] == free[i];
        SubnetDisjoint(subnet, x, free[i]);
      } else {
        assert next[j] == pieces[j - |rest|];
      }
    }
  }

  /** A pass keeps every free block inside the VPC block. */
  lemma SubtractSubnetWithin(free: seq<Network>, subnet: Network, vpc: Network)
    requires forall j | 0 <= j < |free| :: SubnetOf(free[j], vpc)
    ensures forall j | 0 <= j < |SubtractSubnet(free, subnet)| :: SubnetOf(SubtractSubnet(free, subnet)[j], vpc)
  {
    var k := FirstHit(free, subnet);
    if k < |free| {
      var rest := free[..k] + free[k + 1..];
      var pieces := SubtractNetwork(free[k], subnet);
      SubtractNetworkPartition(free[k], subnet);
      forall j | 0 <= j < |rest + pieces|
        ensures SubnetOf((rest + pieces)[j], vpc)
      {
        if j < |rest| {
          assert rest[j] == free[if j < k then j else j + 1];
        } else {
          assert (rest + pieces)[j] == pieces[j - |rest|];
          SubnetTransitive(pieces[j - |rest|], free[k], vpc);
        }
      }
    }
  }

  /** A pass keeps the free blocks maximal. */
  lemma SubtractSubnetMaximal(free: seq<Network>, subnet: Network)
    requires PairwiseDisjoint(free) && Maximal(free)
    ensures Maximal(SubtractSubnet(free, subnet))
  {
    var k := FirstHit(free, subnet);
    if k < |free| {
      var next := SubtractSubnet(free, subnet);
      assert next == free[..k] + free[k + 1..] + SubtractNetwork(free[k], subnet);
      SubtractSubnetSpan(free, subnet);
      forall b: Network | Range(b) <= Span(next)
        ensures exists j :: 0 <= j < |next| && SubnetOf(b, next[j])
      {
        MaximalBlock(free, k, subnet, b, next);
      }
    }
  }

  /** A block among the free addresses left once the subnet is taken out of
      free block k lies inside one block of the new free list. */
  lemma MaximalBlock(free: seq<Network>, k: nat, subnet: Network, b: Network, next: seq<Network>)
    requires Maximal(free) && k < |free| && SubnetOf(subnet, free[k])
    requires next == free[..k] + free[k + 1..] + SubtractNetwork(free[k], subnet)
    requires Range(b) <= Span(free) - Range(subnet)
    ensures exists j :: 0 <= j < |next| && SubnetOf(b, next[j])
  {
    var rest := free[..k] + free[k + 1..];
    WithoutEntry(free, k, rest);
    assert Range(b) <= Span(free);
    var j :| 0 <= j < |free| && SubnetOf(b, free[j]);
    if j < k {
      assert next[j] == free[j];
    } else if j > k {
      assert next[j - 1] == free[j];
    } else {
      forall a | a in Range(b)
        ensures a !in Range(subnet)
      {
      }
      PieceHolds(rest, free[k], subnet, b);
    }
  }

  /** A block inside the hit free block that misses the subnet lies inside
      one of the appended pieces. */
  lemma PieceHolds(rest: seq<Network>, x: Network, subnet: Network, b: Network)
    requires SubnetOf(subnet, x) && SubnetOf(b, x) && Range(b) * Range(subnet) == {}
    ensures exists i :: 0 <= i < |rest + SubtractNetwork(x, subnet)| && SubnetOf(b, (rest + SubtractNetwork(x, subnet))[i])
  {
    var pieces := SubtractNetwork(x, subnet);
    DisjointRange(b, subnet);
    ExcludeMaximal(x, subnet, b);
    var p :| 0 <= p < |pieces| && SubnetOf(b, pieces[p]);
    assert (rest + pieces)[|rest| + p] == pieces[p];
  }

  /** At the first hit, removing the entry and appending its pieces gives
      the list one pass leaves. */
  lemma TakeHit(free: seq<Network>, subnet: Network, i: nat)
    requires PairwiseDisjoint(free) && i == FirstHit(free, subnet) < |free|
    ensures free[i] in free
    ensures RemoveFirst(free, free[i]) + SubtractNetwork(free[i], subnet) == SubtractSubnet(free, subnet)
  {
    forall j | 0 <= j < i
      ensures free[j] != free[i]
    {
      DisjointDistinct(free, j, i);
    }
    RemoveFirstAt(free, i);
  }

  /** One pass of the inner loop of get_free_cidrs, as Python runs it: the
      loop walks the list by index while the body removes the current entry
      and appends to the list. After a removal the next entry slides into the
      removed one's place and is skipped; appended entries are visited later.
      Both are harmless: once the subnet has hit, every entry misses it. */
  method SubtractFromFree(free0: seq<Network>, subnet: Network) returns (free: seq<Network>)
    requires PairwiseDisjoint(free0)
    ensures free == SubtractSubnet(free0, subnet)
  {
    free := free0;
    ghost var hit := false;
    ghost var k := FirstHit(free0, subnet);
    SubtractSubnetDisjoint(free0, subnet);
    if k < |free0| {
      SubtractSubnetMisses(free0, subnet);
    }
    var i := 0;
    while i < |free|
      invariant !hit ==> free == free0 && i <= k
      invariant hit ==> k < |free0| && free == SubtractSubnet(free0, subnet) && i <= |free| + 1
      invariant hit ==> forall j | 0 <= j < |free| :: Disjoint(free[j], subnet)
      decreases if hit then 0 else 1, |free| - i
    {
      var network := free[i];
      var result := SubtractNetwork(network, subnet);
      if IsSameNetwork(network, subnet) || |result| != 0 {
        TakeHit(free, subnet, i);
        free := RemoveFirst(free, network);
        hit := true;
      }
      free := free + result;
      i := i + 1;
    }
  }

  // ---------------------------------------------------------------------
  // get_free_cidrs

  /** The free list after subtracting the given subnets in order. */
  function FreeCidrs(vpc: Network, subnets: seq<Network>): seq<Network>
  {
    if subnets == [] then [vpc]
    else SubtractSubnet(FreeCidrs(vpc, subnets[..|subnets| - 1]), subnets[|subnets| - 1])
  }

  /** The addresses taken out of the free space: those of every subnet that
      lay inside some free block when its turn came. */
  ghost function Removed(vpc: Network, subnets: seq<Network>): set<nat>
  {
    if subnets == [] then {}
    else
      var previous := FreeCidrs(vpc, subnets[..|subnets| - 1]);
      var subnet := subnets[|subnets| - 1];
      if FirstHit(previous, subnet) < |previous| then Removed(vpc, subnets[..|subnets| - 1]) + Range(subnet)
      else Removed(vpc, subnets[..|subnets| - 1])
  }

  /** The invariant of the outer loop of get_free_cidrs: the free blocks are
      pairwise disjoint, lie inside the VPC block and are maximal, and their
      union is the VPC block minus the subnets that were taken out. */
  lemma {:induction false} FreeCidrsInvariant(vpc: Network, subnets: seq<Network>)
    ensures PairwiseDisjoint(FreeCidrs(vpc, subnets))
    ensures forall j | 0 <= j < |FreeCidrs(vpc, subnets)| :: SubnetOf(FreeCidrs(vpc, subnets)[j], vpc)
    ensures Maximal(FreeCidrs(vpc, subnets))
    ensures Span(FreeCidrs(vpc, subnets)) == Range(vpc) - Removed(vpc, subnets)
  {
    if subnets == [] {
      assert Span([vpc]) == Range(vpc);
      forall b: Network | Range(b) <= Span([vpc])
        ensures exists j :: 0 <= j < 1 && SubnetOf(b, [vpc][j])
      {
        SubsetRange(b, vpc);
      }
    } else {
      var previous := subnets[..|subnets| - 1];
      var subnet := subnets[|subnets| - 1];
      var free := FreeCidrs(vpc, previous);
      FreeCidrsInvariant(vpc, previous);
      SubtractSubnetDisjoint(free, subnet);
      SubtractSubnetSpan(free, subnet);
      SubtractSubnetWithin(free, subnet, vpc);
      SubtractSubnetMaximal(free, subnet);
    }
  }

  /** `get_free_cidrs`: the VPC block minus every subnet block, subtracted in
      list order from the free block that holds it. */
  method GetFreeCidrs(vpc: Network, subnets: seq<Network>) returns (free: seq<Network>)
    ensures free == FreeCidrs(vpc, subnets)
    ensures PairwiseDisjoint(free)
    ensures forall j | 0 <= j < |free| :: SubnetOf(free[j], vpc)
    ensures Span(free) == Range(vpc) - Removed(vpc, subnets)
  {
    free := [vpc];
    for n := 0 to |subnets|
      invariant free == FreeCidrs(vpc, subnets[..n])
    {
      FreeCidrsInvariant(vpc, subnets[..n]);
      free := SubtractFromFree(free, subnets[n]);
      assert subnets[..n + 1][..n] == subnets[..n];
    }
    assert subnets[..|subnets|] == subnets;
    FreeCidrsInvariant(vpc, subnets);
  }

  // ---------------------------------------------------------------------
  // Properties of the whole computation

  /** Without subnets the free list is the VPC block alone. */
  lemma NoSubnets(vpc: Network)
    ensures FreeCidrs(vpc, []) == [vpc]
  {
  }

  /** Subtracting the VPC block from itself leaves no free block. */
  lemma FullConsumption(vpc: Network)
    ensures FreeCidrs(vpc, [vpc]) == []
  {
    assert [vpc][..0] == [];
    assert Hits(vpc, vpc);
  }

  /** Subtracting the two lowest equal-sized blocks of the VPC block in
      turn leaves the upper halves of ever smaller blocks, one per prefix
      length strictly between the VPC block's and theirs (for 10.0.0.0/16
      minus 10.0.0.0/24 and 10.0.1.0/24: the /17 at 10.0.128.0 down to the
      /23 at 10.0.2.0). */
  lemma LowestTwoSubnets(vpc: Network, first: Network, second: Network)
    requires first.address == vpc.address && vpc.length < first.length
    requires second.length == first.length && second.address == first.address + Size(first)
    ensures |FreeCidrs(vpc, [first, second])| == first.length - vpc.length - 1
    ensures forall j | 0 <= j < |FreeCidrs(vpc, [first, second])| ::
      FreeCidrs(vpc, [first, second])[j].length == vpc.length + 1 + j &&
      FreeCidrs(vpc, [first, second])[j].address == vpc.address + Size(FreeCidrs(vpc, [first, second])[j])
  {
    TwoPasses(vpc, first, second);
    var free, pieces := FreeCidrs(vpc, [first, second]), Exclude(vpc, first);
    ExcludeShape(vpc, first);
    ExcludeLowest(vpc, first);
    forall j | 0 <= j < |free|
      ensures free[j].length == vpc.length + 1 + j && free[j].address == vpc.address + Size(free[j])
    {
      assert free[j] == pieces[j];
    }
  }

  /** The example 10.0.0.0/16 with the subnets 10.0.0.0/24 and 10.0.1.0/24,
      with addresses written as 32-bit numbers (10.0.0.0 is 167772160): the
      free list is 10.0.128.0/17, 10.0.64.0/18, 10.0.32.0/19, 10.0.16.0/20,
      10.0.8.0/21, 10.0.4.0/22 and 10.0.2.0/23, in that order. */
  lemma TenZeroScenario(vpc: Network, first: Network, second: Network)
    requires vpc == Prefix(167772160, 16)
    requires first == Prefix(167772160, 24) && second == Prefix(167772416, 24)
    ensures FreeCidrs(vpc, [first, second]) ==
      [Prefix(167804928, 17), Prefix(167788544, 18), Prefix(167780352, 19), Prefix(167776256, 20),
       Prefix(167774208, 21), Prefix(167773184, 22), Prefix(167772672, 23)]
  {
    Pow2Table();
    LowestTwoSubnets(vpc, first, second);
    var free := FreeCidrs(vpc, [first, second]);
    assert free[0] == Prefix(167804928, 17) && free[1] == Prefix(167788544, 18);
    assert free[2] == Prefix(167780352, 19) && free[3] == Prefix(167776256, 20);
    assert free[4] == Prefix(167774208, 21) && free[5] == Prefix(167773184, 22);
    assert free[6] == Prefix(167772672, 23);
  }

  /** The block sizes of the example, from a /24 up to a /17. */
  lemma Pow2Table()
    ensures Pow2(8) == 256 && Pow2(9) == 512 && Pow2(10) == 1024 && Pow2(11) == 2048
    ensures Pow2(12) == 4096 && Pow2(13) == 8192 && Pow2(14) == 16384 && Pow2(15) == 32768
  {
    assert Pow2(8) == 256;
    assert Pow2(9) == 2 * Pow2(8);
    assert Pow2(10) == 2 * Pow2(9);
    assert Pow2(11) == 2 * Pow2(10);
    assert Pow2(12) == 2 * Pow2(11);
    assert Pow2(13) == 2 * Pow2(12);
    assert Pow2(14) == 2 * Pow2(13);
    assert Pow2(15) == 2 * Pow2(14);
  }

  lemma TwoPasses(vpc: Network, first: Network, second: Network)
    requires first.address == vpc.address && vpc.length < first.length
    requires second.length == first.length && second.address == first.address + Size(first)
    ensures SubnetOf(first, vpc)
    ensures |Exclude(vpc, first)| == first.length - vpc.length
    ensures FreeCidrs(vpc, [first, second]) == Exclude(vpc, first)[..first.length - vpc.length - 1]
  {
    assert SubnetOf(first, vpc) by {
      Pow2Monotone(32 - first.length, 32 - vpc.length);
    }
    SecondPass(vpc, first, second);
    LowestPass(vpc, first, second);
  }

  /** With two subnets, the second is subtracted from what the first leaves. */
  lemma SecondPass(vpc: Network, first: Network, second: Network)
    requires SubnetOf(first, vpc)
    ensures FreeCidrs(vpc, [first, second]) == SubtractSubnet(Exclude(vpc, first), second)
  {
    FreeCidrsSnoc(vpc, [first], second);
    assert [first] + [second] == [first, second];
    SinglePass(vpc, first);
  }

  /** The free list after one more subnet is one more pass over the free list. */
  lemma FreeCidrsSnoc(vpc: Network, subnets: seq<Network>, subnet: Network)
    ensures FreeCidrs(vpc, subnets + [subnet]) == SubtractSubnet(FreeCidrs(vpc, subnets), subnet)
  {
    assert (subnets + [subnet])[..|subnets|] == subnets;
  }

  /** After the lowest block is taken out, taking out the block right above
      it drops the last piece. */
  lemma LowestPass(vpc: Network, first: Network, second: Network)
    requires SubnetOf(first, vpc) && first.address == vpc.address && vpc.length < first.length
    requires second.length == first.length && second.address == first.address + Size(first)
    ensures |Exclude(vpc, first)| == first.length - vpc.length
    ensures SubtractSubnet(Exclude(vpc, first), second) == Exclude(vpc, first)[..first.length - vpc.length - 1]
  {
    LowestLastPiece(vpc, first, second);
    ExcludeDisjoint(vpc, first);
    LastPass(Exclude(vpc, first), second);
  }

  /** Subtracting a block inside the VPC block from the VPC block alone. */
  lemma SinglePass(vpc: Network, subnet: Network)
    requires SubnetOf(subnet, vpc)
    ensures FreeCidrs(vpc, [subnet]) == SubtractNetwork(vpc, subnet)
  {
    assert Hits(vpc, subnet);
    assert [subnet][..0] == [];
  }

  /** Subtracting the last block of a disjoint list drops just that block. */
  lemma LastPass(free: seq<Network>, subnet: Network)
    requires PairwiseDisjoint(free) && |free| > 0 && free[|free| - 1] == subnet
    ensures SubtractSubnet(free, subnet) == free[..|free| - 1]
  {
    var n := |free|;
    assert Hits(free[n - 1], subnet);
    forall j | 0 <= j < n - 1
      ensures !Hits(free[j], subnet)
    {
      assert Disjoint(free[j], free[n - 1]);
    }
    assert FirstHit(free, subnet) == n - 1;
    assert SubtractNetwork(subnet, subnet) == [];
    assert free[n..] == [];
  }

  /** Subnets as AWS hands them out: each inside the VPC block, no two
      sharing an address. */
  ghost predicate Allocation(vpc: Network, subnets: seq<Network>)
  {
    (forall i | 0 <= i < |subnets| :: SubnetOf(subnets[i], vpc)) &&
    PairwiseDisjoint(subnets)
  }

  /** When the free blocks cover the VPC block minus earlier subnets, a
      later subnet inside the VPC block that misses them all lies inside one
      free block. */
  lemma NextSubnetHits(vpc: Network, previous: seq<Network>, subnet: Network)
    requires Removed(vpc, previous) == Span(previous)
    requires SubnetOf(subnet, vpc)
    requires forall j | 0 <= j < |previous| :: Disjoint(previous[j], subnet)
    ensures FirstHit(FreeCidrs(vpc, previous), subnet) < |FreeCidrs(vpc, previous)|
  {
    var free := FreeCidrs(vpc, previous);
    FreeCidrsInvariant(vpc, previous);
    SpanDisjointFrom(previous, subnet);
    RangeSubnet(subnet, vpc);
    InsideFree(Span(free), Range(vpc), Span(previous), Range(subnet));
    assert Maximal(free);
    var j :| 0 <= j < |free| && SubnetOf(subnet, free[j]);
    assert Hits(free[j], subnet);
  }

  lemma InsideFree(free: set<nat>, vpc: set<nat>, previous: set<nat>, subnet: set<nat>)
    requires free == vpc - previous && subnet <= vpc && previous * subnet == {}
    ensures subnet <= free
  {
    forall a | a in subnet
      ensures a in free
    {
      assert a !in previous * subnet;
    }
  }

  /** For such subnets every one is taken out. */
  lemma {:induction false} AllocationRemoved(vpc: Network, subnets: seq<Network>)
    requires Allocation(vpc, subnets)
    ensures Removed(vpc, subnets) == Span(subnets)
  {
    if subnets != [] {
      var previous := subnets[..|subnets| - 1];
      var subnet := subnets[|subnets| - 1];
      assert subnets == previous + [subnet];
      forall i, j | 0 <= i < |previous| && 0 <= j < |previous| && i != j
        ensures Disjoint(previous[i], previous[j])
      {
        assert previous[i] == subnets[i] && previous[j] == subnets[j];
      }
      assert Allocation(vpc, previous);
      AllocationRemoved(vpc, previous);
      forall j | 0 <= j < |previous|
        ensures Disjoint(previous[j], subnet)
      {
        assert previous[j] == subnets[j];
      }
      NextSubnetHits(vpc, previous, subnet);
      SpanConcat(previous, [subnet]);
      assert Span([subnet]) == Range(subnet);
    }
  }

  /** For such subnets the free blocks and the subnets together cover the
      VPC block exactly, and no free block shares an address with a subnet. */
  lemma FreeCidrsComplete(vpc: Network, subnets: seq<Network>)
    requires Allocation(vpc, subnets)
    ensures Span(FreeCidrs(vpc, subnets)) == Range(vpc) - Span(subnets)
    ensures forall i, j | 0 <= i < |FreeCidrs(vpc, subnets)| && 0 <= j < |subnets| ::
      Disjoint(FreeCidrs(vpc, subnets)[i], subnets[j])
  {
    var free := FreeCidrs(vpc, subnets);
    FreeCidrsInvariant(vpc, subnets);
    AllocationRemoved(vpc, subnets);
    forall i, j | 0 <= i < |free| && 0 <= j < |subnets|
      ensures Disjoint(free[i], subnets[j])
    {
      RangeInSpan(free, i);
      RangeInSpan(subnets, j);
      DisjointRange(free[i], subnets[j]);
    }
  }

  lemma SpanPermutation(a: seq<Network>, b: seq<Network>)
    requires multiset(a) == multiset(b)
    ensures Span(a) == Span(b)
  {
    forall x | x in Span(a)
      ensures x in Span(b)
    {
      SpanMember(a, x);
      SpanMember(b, x);
      var j :| 0 <= j < |a| && x in Range(a[j]);
      assert a[j] in multiset(b);
      var i :| 0 <= i < |b| && b[i] == a[j];
    }
    forall x | x in Span(b)
      ensures x in Span(a)
    {
      SpanMember(a, x);
      SpanMember(b, x);
      var j :| 0 <= j < |b| && x in Range(b[j]);
      assert b[j] in multiset(a);
      var i :| 0 <= i < |a| && a[i] == b[j];
    }
  }

  /** The free address space does not depend on the order in which the
      subnets are subtracted, though the shape of the blocks may. */
  lemma OrderIndependent(vpc: Network, subnets: seq<Network>, reordered: seq<Network>)
    requires Allocation(vpc, subnets) && Allocation(vpc, reordered)
    requires multiset(subnets) == multiset(reordered)
    ensures Span(FreeCidrs(vpc, subnets)) == Span(FreeCidrs(vpc, reordered))
  {
    FreeCidrsComplete(vpc, subnets);
    FreeCidrsComplete(vpc, reordered);
    SpanPermutation(subnets, reordered);
  }
}
