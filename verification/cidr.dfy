/** IPv4 prefixes in the prefix notation of RFC 4632, section 3.1, with the
    parts of Python's ipaddress.IPv4Network that the free-space engine uses:
    containment (subnet_of), bisection (subnets()) and the address range of a
    block. Address sets are ghost sets of naturals and are never built. */
module Cidr {

  /** The number of IPv4 addresses, 2^32. */
  const AddressCount: nat := 0x1_0000_0000

  function Pow2(n: nat): (r: nat)
    ensures r >= 1
  {
    if n == 0 then 1 else 2 * Pow2(n - 1)
  }

  /** A prefix as written "address/length"; the address is the network address. */
  datatype Prefix = Prefix(address: nat, length: nat)

  /** The lowest k bits of x are zero. */
  predicate LowBitsZero(x: nat, k: nat)
  {
    k == 0 || (x % 2 == 0 && LowBitsZero(x / 2, k - 1))
  }

  /** The address fits in 32 bits, the length is at most 32 and no host bits
      are set: the 32 - length low bits of the address are zero. */
  predicate WellFormed(p: Prefix)
  {
    p.length <= 32 && p.address < AddressCount && LowBitsZero(p.address, 32 - p.length)
  }

  /** An IPv4Network value: a prefix that the strict constructor accepts. */
  type Network = p: Prefix | WellFormed(p) witness Prefix(0, 32)

  /** Number of addresses in the block. */
  function Size(n: Network): nat
  {
    Pow2(32 - n.length)
  }

  /** The last address of the block. */
  function Broadcast(n: Network): nat
  {
    n.address + Size(n) - 1
  }

  /** `a.subnet_of(b)`: every address of a is an address of b. */
  predicate SubnetOf(a: Network, b: Network)
  {
    b.address <= a.address && Broadcast(a) <= Broadcast(b)
  }

  /** The two blocks share no address. */
  predicate Disjoint(a: Network, b: Network)
  {
    Broadcast(a) < b.address || Broadcast(b) < a.address
  }

  /** `n.subnets()`: the lower and the upper half of a block, one bit longer. */
  function Halves(n: Network): (h: (Network, Network))
    requires n.length < 32
    ensures h.0.length == h.1.length == n.length + 1
    ensures SubnetOf(h.0, n) && SubnetOf(h.1, n) && Disjoint(h.0, h.1)
    ensures h.0.address == n.address && Broadcast(h.1) == Broadcast(n)
    ensures Broadcast(h.0) + 1 == h.1.address
  {
    var half := Pow2(31 - n.length);
    HalfBlock(n);
    (Prefix(n.address, n.length + 1), Prefix(n.address + half, n.length + 1))
  }

  /** The arithmetic behind Halves: both halves start on a multiple of
      half the block size and end inside the block. */
  lemma HalfBlock(n: Network)
    requires n.length < 32
    ensures Size(n) == 2 * Pow2(31 - n.length)
    ensures n.address + Size(n) <= AddressCount
    ensures LowBitsZero(n.address, 31 - n.length)
    ensures LowBitsZero(n.address + Pow2(31 - n.length), 31 - n.length)
  {
    LowBitsWeaken(n.address, 32 - n.length, 31 - n.length);
    LowBitsStep(n.address, 31 - n.length);
    BlockEnd(n);
  }

  predicate InInterval(a: nat, lo: nat, hi: nat)
  {
    lo <= a < hi
  }

  /** The addresses from lo up to but excluding hi. The bounds written out
      show Dafny that the set is finite; InInterval repeats them as a term
      that quantifiers over the members can trigger on. */
  ghost function Interval(lo: nat, hi: nat): set<nat>
  {
    set a: nat | lo <= a < hi && InInterval(a, lo, hi)
  }

  /** The addresses of the block. */
  ghost function Range(n: Network): set<nat>
  {
    Interval(n.address, n.address + Size(n))
  }

  /** The union of the address ranges of a list of blocks. */
  ghost function Span(blocks: seq<Network>): set<nat>
  {
    if blocks == [] then {} else Range(blocks[0]) + Span(blocks[1..])
  }

  /** No two entries of the list share an address. */
  predicate PairwiseDisjoint(blocks: seq<Network>)
  {
    forall i, j | 0 <= i < |blocks| && 0 <= j < |blocks| && i != j :: Disjoint(blocks[i], blocks[j])
  }

  // ---------------------------------------------------------------------
  // Arithmetic on powers of two and multiples

  lemma {:induction false} Pow2Add(a: nat, b: nat)
    ensures Pow2(a + b) == Pow2(a) * Pow2(b)
  {
    if a > 0 {
      Pow2Add(a - 1, b);
      assert Pow2(a + b) == 2 * Pow2(a - 1 + b);
    }
  }

  lemma Pow2Of32()
    ensures Pow2(32) == AddressCount
  {
    assert Pow2(8) == 256;
    Pow2Add(8, 8);
    Pow2Add(16, 16);
  }

  lemma {:induction false} Pow2Monotone(a: nat, b: nat)
    requires a < b
    ensures 2 * Pow2(a) <= Pow2(b)
  {
    if a + 1 < b {
      Pow2Monotone(a, b - 1);
    }
  }

  lemma {:induction false} LowBitsWeaken(x: nat, k: nat, j: nat)
    requires j <= k && LowBitsZero(x, k)
    ensures LowBitsZero(x, j)
  {
    if j > 0 {
      LowBitsWeaken(x / 2, k - 1, j - 1);
    }
  }

  /** Adding 2^k to a number whose k low bits are zero keeps them zero. */
  lemma {:induction false} LowBitsStep(x: nat, k: nat)
    requires LowBitsZero(x, k)
    ensures LowBitsZero(x + Pow2(k), k)
  {
    if k > 0 {
      assert (x + Pow2(k)) / 2 == x / 2 + Pow2(k - 1);
      LowBitsStep(x / 2, k - 1);
    }
  }

  lemma {:induction false} LowBitsPow2(k: nat, j: nat)
    requires j <= k
    ensures LowBitsZero(Pow2(k), j)
  {
    if j > 0 {
      assert Pow2(k) / 2 == Pow2(k - 1);
      LowBitsPow2(k - 1, j - 1);
    }
  }

  /** Two distinct numbers whose k low bits are zero lie at least 2^k apart. */
  lemma {:induction false} Gap(x: nat, y: nat, k: nat)
    requires LowBitsZero(x, k) && LowBitsZero(y, k) && x < y
    ensures x + Pow2(k) <= y
  {
    if k > 0 {
      Gap(x / 2, y / 2, k - 1);
    }
  }

  // ---------------------------------------------------------------------
  // Facts about blocks

  lemma BlockEnd(n: Network)
    ensures n.address + Size(n) <= AddressCount
  {
    Pow2Of32();
    LowBitsPow2(32, 32 - n.length);
    Gap(n.address, AddressCount, 32 - n.length);
  }

  /** Two blocks either share no address or one lies inside the other
      (the shorter prefix holds the longer one). */
  lemma Laminar(a: Network, b: Network)
    requires a.length <= b.length
    ensures Disjoint(a, b) || SubnetOf(b, a)
  {
    var ka, kb := 32 - a.length, 32 - b.length;
    LowBitsWeaken(a.address, ka, kb);
    var end := a.address + Size(a);
    LowBitsStep(a.address, ka);
    LowBitsWeaken(end, ka, kb);
    if b.address < a.address {
      Gap(b.address, a.address, kb);
    } else if b.address < end {
      Gap(b.address, end, kb);
    }
  }

  /** A subnet has a prefix at least as long; with equal length it is the same block. */
  lemma SubnetLength(a: Network, b: Network)
    requires SubnetOf(a, b)
    ensures a.length >= b.length
    ensures a.length == b.length ==> a == b
  {
    assert Size(a) <= Size(b);
    if a.length < b.length {
      Pow2Monotone(32 - b.length, 32 - a.length);
      assert false;
    } else if a.length == b.length {
      assert a.address == b.address;
    }
  }

  lemma SubnetTransitive(a: Network, b: Network, c: Network)
    requires SubnetOf(a, b) && SubnetOf(b, c)
    ensures SubnetOf(a, c)
  {
  }

  lemma SubnetDisjoint(a: Network, b: Network, c: Network)
    requires SubnetOf(a, b) && Disjoint(b, c)
    ensures Disjoint(a, c) && Disjoint(c, a)
  {
  }

  /** A proper subnet of a block lies inside one of its halves. */
  lemma InHalf(n: Network, c: Network)
    requires SubnetOf(c, n) && c != n
    ensures n.length < 32
    ensures SubnetOf(c, Halves(n).0) || SubnetOf(c, Halves(n).1)
  {
    SubnetLength(c, n);
    var h := Halves(n);
    Laminar(h.0, c);
    Laminar(h.1, c);
  }

  // ---------------------------------------------------------------------
  // Address ranges

  lemma RangeHalves(n: Network)
    requires n.length < 32
    ensures Range(n) == Range(Halves(n).0) + Range(Halves(n).1)
  {
  }

  lemma RangeSubnet(a: Network, b: Network)
    requires SubnetOf(a, b)
    ensures Range(a) <= Range(b)
  {
  }

  lemma RangeDisjoint(a: Network, b: Network)
    requires Disjoint(a, b)
    ensures Range(a) * Range(b) == {}
  {
  }

  /** Set inclusion of ranges is exactly subnet_of. */
  lemma SubsetRange(a: Network, b: Network)
    ensures Range(a) <= Range(b) <==> SubnetOf(a, b)
  {
    if Range(a) <= Range(b) {
      assert a.address in Range(a);
      assert Broadcast(a) in Range(a);
    } else if SubnetOf(a, b) {
      RangeSubnet(a, b);
    }
  }

  /** Ranges that share no address belong to disjoint blocks. */
  lemma DisjointRange(a: Network, b: Network)
    requires Range(a) * Range(b) == {}
    ensures Disjoint(a, b)
  {
    var x := if a.address < b.address then b.address else a.address;
    assert x <= Broadcast(a) && x <= Broadcast(b) ==> x in Range(a) * Range(b);
  }

  lemma {:induction false} IntervalSize(lo: nat, hi: nat)
    requires lo <= hi
    ensures |Interval(lo, hi)| == hi - lo
  {
    if lo < hi {
      IntervalSize(lo, hi - 1);
      assert Interval(lo, hi) == Interval(lo, hi - 1) + {hi - 1};
    } else {
      assert Interval(lo, hi) == {};
    }
  }

  lemma RangeSize(n: Network)
    ensures |Range(n)| == Size(n)
  {
    IntervalSize(n.address, n.address + Size(n));
  }

  // ---------------------------------------------------------------------
  // Unions of ranges

  lemma {:induction false} SpanConcat(a: seq<Network>, b: seq<Network>)
    ensures Span(a + b) == Span(a) + Span(b)
  {
    if a != [] {
      assert (a + b)[0] == a[0] && (a + b)[1..] == a[1..] + b;
      SpanConcat(a[1..], b);
    } else {
      assert a + b == b;
    }
  }

  lemma {:induction false} SpanMember(blocks: seq<Network>, x: nat)
    ensures x in Span(blocks) <==> exists j :: 0 <= j < |blocks| && x in Range(blocks[j])
  {
    if blocks != [] {
      SpanMember(blocks[1..], x);
      if x in Span(blocks[1..]) {
        var j :| 0 <= j < |blocks[1..]| && x in Range(blocks[1..][j]);
        assert x in Range(blocks[j + 1]);
      }
      if exists j :: 0 <= j < |blocks| && x in Range(blocks[j]) {
        var j :| 0 <= j < |blocks| && x in Range(blocks[j]);
        if j > 0 {
          assert x in Range(blocks[1..][j - 1]);
        }
      }
    }
  }

  lemma RangeInSpan(blocks: seq<Network>, j: nat)
    requires j < |blocks|
    ensures Range(blocks[j]) <= Span(blocks)
  {
    forall x | x in Range(blocks[j])
      ensures x in Span(blocks)
    {
      SpanMember(blocks, x);
    }
  }

  /** Removing entry k of a list removes exactly its range, when it is disjoint from the rest. */
  lemma SpanRemove(blocks: seq<Network>, k: nat)
    requires k < |blocks| && PairwiseDisjoint(blocks)
    ensures Span(blocks[..k] + blocks[k + 1..]) == Span(blocks) - Range(blocks[k])
    ensures Span(blocks[..k] + blocks[k + 1..]) * Range(blocks[k]) == {}
  {
    var rest := blocks[..k] + blocks[k + 1..];
    assert blocks == blocks[..k] + [blocks[k]] + blocks[k + 1..];
    SpanConcat(blocks[..k] + [blocks[k]], blocks[k + 1..]);
    SpanConcat(blocks[..k], [blocks[k]]);
    SpanConcat(blocks[..k], blocks[k + 1..]);
    assert Span([blocks[k]]) == Range(blocks[k]);
    forall j | 0 <= j < |rest|
      ensures Disjoint(rest[j], blocks[k])
    {
      if j < k {
        assert rest[j] == blocks[j];
      } else {
        assert rest[j] == blocks[j + 1];
      }
    }
    SpanDisjointFrom(rest, blocks[k]);
  }

  lemma {:induction false} SpanDisjointFrom(blocks: seq<Network>, n: Network)
    requires forall j | 0 <= j < |blocks| :: Disjoint(blocks[j], n)
    ensures Span(blocks) * Range(n) == {}
  {
    if blocks != [] {
      RangeDisjoint(blocks[0], n);
      SpanDisjointFrom(blocks[1..], n);
    }
  }

  lemma {:induction false} SpanWithin(blocks: seq<Network>, n: Network)
    requires forall j | 0 <= j < |blocks| :: SubnetOf(blocks[j], n)
    ensures Span(blocks) <= Range(n)
  {
    if blocks != [] {
      RangeSubnet(blocks[0], n);
      SpanWithin(blocks[1..], n);
    }
  }

  /** A block put in front of disjoint blocks that all lie inside a block
      it misses keeps the list pairwise disjoint. */
  lemma PrependDisjoint(first: Network, outer: Network, rest: seq<Network>)
    requires Disjoint(outer, first) && PairwiseDisjoint(rest)
    requires forall j | 0 <= j < |rest| :: SubnetOf(rest[j], outer)
    ensures PairwiseDisjoint([first] + rest)
  {
    var blocks := [first] + rest;
    forall i, j | 0 <= i < |blocks| && 0 <= j < |blocks| && i != j
      ensures Disjoint(blocks[i], blocks[j])
    {
      if i == 0 {
        assert blocks[j] == rest[j - 1];
      } else if j == 0 {
        assert blocks[i] == rest[i - 1];
      } else {
        assert blocks[i] == rest[i - 1] && blocks[j] == rest[j - 1];
      }
    }
  }

  /** Disjoint blocks are distinct, so a pairwise disjoint list has no repeated entry. */
  lemma DisjointDistinct(blocks: seq<Network>, i: nat, j: nat)
    requires PairwiseDisjoint(blocks) && i < |blocks| && j < |blocks| && i != j
    ensures blocks[i] != blocks[j]
  {
    assert Disjoint(blocks[i], blocks[j]);
  }
}
