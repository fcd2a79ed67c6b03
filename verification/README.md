# Free address space of an AWS VPC, modelled in Dafny

The script `finished_script/main.py` reports the unallocated IPv4 space of a VPC:

- it takes the VPC's CIDR block;
- it subtracts each subnet's CIDR block from the free block that holds it, using Python's `ipaddress.IPv4Network.address_exclude`;
- it collects the usable host addresses of the remaining blocks;
- it reports their lowest and highest address;
- it estimates how many subnets of a given prefix length would fit.

This project models that engine. It proves what the engine's results mean in terms of address sets.

- `Cidr` models IPv4 prefixes.
  - A `Network` is an address below 2^32 with a length of at most 32 and no host bits set.
  - The module also defines the address range of a block, `subnet_of`, and bisection into halves.
  - Address sets are ghost `set<nat>`.
- `Exclusion` models `address_exclude`.
  - `Exclude` is the recursive specification.
  - `AddressExclude` is the halving loop, with its `ValueError` path.
- `FreeSpace` models `subtract_network`, `compare_networks`/`is_same_network` and `get_free_cidrs`.
  - The inner loop of `get_free_cidrs` removes list entries and extends the list while iterating over it. It is modelled as Python runs it: an index walk over a list that shrinks and grows.
  - `SubtractSubnet` specifies one pass of that loop. `FreeCidrs` specifies the whole loop.
- `HostStats` models `get_host_ips`, `get_free_ips_min_max` and `get_available_subnets_of_size`.
  - Host addresses form a ghost set, and the methods compute its size, minimum and maximum block by block.
  - What `hosts()` yields for a /31 or /32 block depends on the Python version, so it is the parameter `PointToPoint`:
    - `Rfc3021`: both addresses of a /31 and nothing for a /32, as in Python 3 before 3.9;
    - `AllAddresses`: both addresses of a /31 and the one address of a /32, as from Python 3.9 on;
    - `NoHosts`: no host in a /31 or /32, the zero-host convention for point-to-point blocks.

The VPC block and the subnet blocks are parameters. In the script they come from the EC2 API.

## Model

| member | source | states |
|---|---|---|
| Cidr.Halves | finished_script/main.py:89 | the two halves that `address_exclude` splits a block into are one bit longer, lie inside it, are disjoint and meet end to end |
| Cidr.InHalf | finished_script/main.py:89 | a proper subnet of a block lies inside one of its two halves |
| Cidr.RangeHalves | finished_script/main.py:89 | the two halves together hold exactly the addresses of the block |
| Cidr.Laminar | finished_script/main.py:88-89 | two CIDR blocks are either disjoint or one lies inside the other |
| Cidr.SubnetLength | finished_script/main.py:88 | a subnet has a prefix at least as long, and one of equal length is the same block |
| Cidr.SubsetRange | finished_script/main.py:88 | `subnet_of` holds exactly when the address set of the first block is included in that of the second, in both directions |
| Cidr.RangeSubnet | finished_script/main.py:88 | a subnet's addresses are addresses of the block that holds it |
| Cidr.DisjointRange | finished_script/main.py:88-89 | blocks whose address sets do not meet are disjoint blocks |
| Cidr.RangeSize | finished_script/main.py:79 | a block of length l holds 2^(32-l) addresses |
| Exclusion.ExcludeShape | finished_script/main.py:89 | `address_exclude` yields one block per bit between the two prefix lengths, largest first; each lies inside the container and misses the excluded block |
| Exclusion.ExcludeDisjoint | finished_script/main.py:89 | the yielded blocks are pairwise disjoint |
| Exclusion.ExcludeCovers | finished_script/main.py:89 | the yielded blocks cover exactly the container's addresses minus the excluded block's |
| Exclusion.ExcludeStep | finished_script/main.py:89 | unfolding of `Exclude` by one halving step, with the fact that the excluded block lies in one half: the half without it is yielded first and the rest comes from the half with it |
| Exclusion.ExcludeLast | finished_script/main.py:89 | when the excluded block is one half, the other half is the only block yielded |
| Exclusion.ExcludeMaximal | finished_script/main.py:89 | every block inside the container that misses the excluded block lies inside a single yielded block |
| Exclusion.OuterMaximal | finished_script/main.py:89 | a block in the half that holds the excluded block, and missing it, lies inside a block yielded from that half |
| Exclusion.ExcludeLowest | finished_script/main.py:89 | when the excluded block starts at the container's address, every yielded block starts its own size above that address |
| Exclusion.LowestLastPiece | finished_script/main.py:89 | in that case one block per bit is yielded, and the last one is the block of equal size right above the excluded block |
| Exclusion.AddressExclude | finished_script/main.py:89 | the halving loop fails with `NotContained` exactly when the argument is not a subnet; otherwise it yields `Exclude` |
| FreeSpace.SubtractNetwork | finished_script/main.py:84-91 | the result is empty exactly when the contained block is not a subnet or equals the container |
| FreeSpace.SubtractNetworkPartition | finished_script/main.py:84-91 | for a subnet, the pieces are pairwise disjoint, longer than the container and inside it, and miss the subnet; with the subnet they make up the container exactly |
| FreeSpace.NetmaskOrder | finished_script/main.py:95 | a longer prefix has the larger netmask, in both directions |
| FreeSpace.CompareNetworks | finished_script/main.py:95 | `compare_networks` is 0 exactly for equal networks and negative exactly when ordered by address, then by prefix length |
| FreeSpace.IsSameNetwork | finished_script/main.py:94-97 | true exactly for the same network address and prefix length |
| FreeSpace.Hits | finished_script/main.py:55 | the removal test holds exactly when the subnet lies inside the free block |
| FreeSpace.FirstHit | finished_script/main.py:52-55 | the index of the first free block that the subnet hits, with none hit before it |
| FreeSpace.RemoveFirstCount | finished_script/main.py:56 | `list.remove` drops exactly one copy of the entry and keeps every other entry |
| FreeSpace.RemoveFirstAt | finished_script/main.py:56 | when no equal entry comes before position k, `remove` drops entry k |
| FreeSpace.TakeHit | finished_script/main.py:53-58 | at the first free block the subnet hits, removing that block and appending its pieces gives the list one pass leaves |
| FreeSpace.SubtractSubnetDisjoint | finished_script/main.py:52-58 | one pass keeps the free blocks pairwise disjoint |
| FreeSpace.SubtractSubnetSpan | finished_script/main.py:52-58 | a pass removes exactly the subnet's addresses when it hits a free block, and leaves the list unchanged otherwise |
| FreeSpace.SubtractSubnetMisses | finished_script/main.py:52-58 | after a hit, every free block misses the subnet, so the rest of the walk changes nothing |
| FreeSpace.SubtractSubnetWithin | finished_script/main.py:52-58 | a pass keeps every free block inside the VPC block |
| FreeSpace.SubtractSubnetMaximal | finished_script/main.py:52-58 | a pass keeps every block inside the free space inside a single free block |
| FreeSpace.MaximalBlock | finished_script/main.py:52-58 | after the first hit is replaced by its pieces, every block inside the remaining free space lies inside a single free block |
| FreeSpace.SubtractFromFree | finished_script/main.py:52-58 | the index walk over the shrinking and growing list, skips included, computes `SubtractSubnet` |
| FreeSpace.FreeCidrsInvariant | finished_script/main.py:47-58 | invariant of the outer loop: free blocks are pairwise disjoint, inside the VPC block and maximal; their union is the VPC block minus the subnets taken out |
| FreeSpace.FreeCidrsSnoc | finished_script/main.py:49-58 | unfolding of `FreeCidrs` by one step: one more subnet is one more pass over the free list |
| FreeSpace.GetFreeCidrs | finished_script/main.py:42-60 | the result is `FreeCidrs`, pairwise disjoint, inside the VPC block, and covers the VPC block minus the removed subnets |
| FreeSpace.NoSubnets | finished_script/main.py:47-60 | with no subnets the free list is the VPC block alone |
| FreeSpace.FullConsumption | finished_script/main.py:47-60 | subtracting the VPC block from itself leaves no free block |
| FreeSpace.LowestTwoSubnets | finished_script/main.py:47-60 | subtracting the two lowest equal-sized blocks leaves one upper half per prefix length in between, at the stated addresses |
| FreeSpace.TwoPasses | finished_script/main.py:47-60 | for those two subnets, the free list is the exclusion of the first without its last block |
| FreeSpace.SinglePass | finished_script/main.py:47-60 | one subnet inside the VPC block leaves `subtract_network(vpc, subnet)` |
| FreeSpace.SecondPass | finished_script/main.py:49-58 | with two subnets inside the VPC block, the second is subtracted from the pieces the first leaves |
| FreeSpace.LowestPass | finished_script/main.py:52-58 | after the lowest block is taken out, taking out the block of equal size right above it drops the last piece |
| FreeSpace.LastPass | finished_script/main.py:52-58 | subtracting a block equal to the last entry of a disjoint list drops just that entry |
| FreeSpace.TenZeroScenario | finished_script/main.py:47-60 | 10.0.0.0/16 minus 10.0.0.0/24 and 10.0.1.0/24 leaves 10.0.128.0/17 down to 10.0.2.0/23 |
| FreeSpace.NextSubnetHits | finished_script/main.py:49-58 | a subnet inside the VPC block that misses the earlier subnets lies inside some free block |
| FreeSpace.AllocationRemoved | finished_script/main.py:49-58 | for subnets inside the VPC block and pairwise disjoint, every subnet is taken out |
| FreeSpace.FreeCidrsComplete | finished_script/main.py:42-60 | for such subnets, the free space is the VPC block minus all subnets, and no free block meets a subnet |
| FreeSpace.OrderIndependent | finished_script/main.py:49-58 | for such subnets, the free address space does not depend on the order of the subnet list |
| FreeSpace.SpanPermutation | finished_script/main.py:47-60 | two lists with the same entries cover the same addresses |
| HostStats.HostsOfBlock | finished_script/main.py:79 | the hosts of a block up to /30 are its addresses minus the network and broadcast addresses; for /31 and /32 they are all or none: none under `NoHosts`, all under `AllAddresses`, and under `Rfc3021` all of a /31 and none of a /32 |
| HostStats.HostCount | finished_script/main.py:79 | a block up to /30 has 2^(32-l) - 2 hosts; a /31 has 0 hosts under `NoHosts` and 2 otherwise; a /32 has 1 under `AllAddresses` and 0 otherwise |
| HostStats.HostsSize | finished_script/main.py:79 | `hosts()` yields as many addresses as lie between its first and last host |
| HostStats.HostSetSize | finished_script/main.py:76-81 | for disjoint blocks, the number of distinct hosts is the sum of the per-block counts |
| HostStats.HostsApart | finished_script/main.py:78-81 | the hosts of one of several disjoint blocks are none of the hosts of the others |
| HostStats.HostSetWithin | finished_script/main.py:78-79 | every host address is a free address |
| HostStats.HostSetMember | finished_script/main.py:78-79 | every host address is a host of one free block |
| HostStats.AddHosts | finished_script/main.py:78-79 | each free block adds its own hosts, which are new to the set |
| HostStats.GetHostIps | finished_script/main.py:75-81 | the count equals the size of the free hosts set and the sum of per-block counts; lowest and highest are its minimum and maximum (`IsLowest`, `IsHighest`), absent exactly when the set is empty |
| HostStats.ScanStep | finished_script/main.py:78-79 | one more block turns the minimum, maximum and count of the hosts so far into those of the hosts up to that block |
| HostStats.LowestStep | finished_script/main.py:65 | the running minimum extended by one interval is the minimum of the union |
| HostStats.HighestStep | finished_script/main.py:65 | the running maximum extended by one interval is the maximum of the union |
| HostStats.IntervalBounds | finished_script/main.py:79 | `hosts()` runs from its first to its last address, and is empty when they cross |
| HostStats.GetFreeIpsMinMax | finished_script/main.py:63-65 | fails exactly when no host is free; otherwise min ≤ max, both are free hosts of some free block, and every free host lies between them |
| HostStats.SubnetsOfSize | finished_script/main.py:70-72 | `math.pow` raises OverflowError for m ≤ -992 and the division raises ZeroDivisionError for m ≥ 1107; from -991 to 32 the result is the q with q·2^(32-m) ≤ hosts < (q+1)·2^(32-m); from 33 to 1106 it is hosts·2^(m-32), or OverflowError from `math.floor` exactly when that reaches 2^1024 |
| HostStats.ScaledHosts | finished_script/main.py:72 | dividing by the fraction 2^-k gives hosts·2^k, and fails with `math.floor`'s OverflowError exactly when that reaches 2^1024 |
| HostStats.Overflows | finished_script/main.py:72 | hosts·2^k reaches 2^1024 exactly when hosts reaches 2^(1024-k), or for k ≥ 1024 when there is any host |
| HostStats.GetAvailableSubnetsOfSize | finished_script/main.py:68-72 | the result is `SubnetsOfSize` of the number of free hosts, errors included; from -991 to 32 it bounds the free hosts by q and q+1 subnets of the size |
| HostStats.TenZeroHosts | finished_script/main.py:68-81 | 10.0.0.0/16 minus its first two /24s has 65010 free hosts, which gives 253 /24 subnets |
| HostStats.TenZeroTotal | finished_script/main.py:76-81 | the host counts of the seven free blocks of that example add up to 65010 |
| HostStats.TenZeroTail | finished_script/main.py:76-81 | the four smallest free blocks of that example hold 7672 hosts |

## Left out

- The EC2 lookups `get_vpc_cidr` and `get_subnet_cidrs` (lines 30-39) and the boto3 client (line 9) are left out. They are network I/O, so the VPC and subnet blocks are parameters instead.
- `get_vpc_cidr` returns the first VPC's block, or nothing when the response lists no VPC. That case is not modelled.
- `main`, `parse_args`, the printing, the `natsorted` call and the `reverse` call (lines 12-27, 100-110) are left out. They are command-line handling and output.
  - `natsorted` returns a new list that the script discards, so the order printed is only reversed.
- Parsing CIDR strings with `ip_network` and formatting addresses with `str()` are not modelled.
  - Blocks are `Network` values: an address below 2^32, a length of at most 32 and no host bits set. These are the blocks the strict constructor accepts.
- HostStats.GetHostIps: it returns the size, minimum and maximum of the host set instead of the set itself. The set is a ghost value named in its contract and is never built.
- HostStats.GetFreeIpsMinMax returns the two addresses as numbers. The script returns their dotted-quad strings.
- HostStats.SubnetsOfSize: `math.pow` and `/` are floating point, while the model divides exactly and states the float range as exponent bounds.
  - The powers 2^-1074 to 2^1023 are exact floats. Dividing a count below 2^53 by one of them is exact, unless the quotient reaches 2^1024, so `math.floor` sees the exact quotient. IPv4 host counts are below 2^33.
  - For counts of 2^53 or more, the rounding of the count to a float is not modelled.
- `hosts()` for /31 and /32 blocks is the parameter `PointToPoint`. Python 3 before 3.9 follows `Rfc3021`, and Python 3.9 and later follow `AllAddresses`. `NoHosts` is the zero-host convention, which no Python 3 release follows.
- FreeSpace.SubtractFromFree requires a pairwise disjoint free list, which the script does not check.
  - The outer loop always provides such a list, as `FreeCidrsInvariant` proves.
  - `GetFreeCidrs` itself has no precondition.
  - The behaviour of a single pass on an overlapping list is not modelled.
- Two `AssertionError` branches are not modelled. `address_exclude` raises one when the excluded block lies in neither half, and another from its trailing check. `InHalf` proves the first unreachable, and the loop's exit cases show the second is.
- FreeSpace.GetFreeCidrs is complete (`FreeCidrsComplete`) only when the subnets lie inside the VPC block and are pairwise disjoint. Otherwise its contract states what it removes through `Removed`.
  - AWS guarantees that the subnets are pairwise disjoint. It guarantees only that each lies in one of the VPC's CIDR blocks, and line 33 reads only the primary block `CidrBlock`.
  - A subnet carved from a secondary CIDR block lies outside the modelled VPC block. It hits no free block and is skipped, and `Removed` accounts for it.
  - Outside that case, a subnet is removed from the first free block that holds it.
  - A subnet that only partly overlaps the free space, or that is already removed, changes nothing. The model follows the code in this.
- `demo_unfinished/vpc_subnets.py` is not part of this model. It is an earlier draft of the same script.
