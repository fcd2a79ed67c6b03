/** `IPv4Network.address_exclude(other)`: the blocks of `net` that remain
    once the subnet `other` is taken out, found by bisection. The standard
    library routine is the one the free-space engine delegates to; the
    recursive function Exclude is its specification and AddressExclude is
    its halving loop. */
module Exclusion {
  import opened Cidr
  import opened Wrappers

  /** The ValueError raised when `other` is not a subnet of `net`. */
  datatype ExcludeError = NotContained

  /** The blocks address_exclude yields, in the order it yields them: halve
      the block, yield the half that does not hold `other`, go on with the
      half that does, and stop once that half is `other` itself. */
  function Exclude(net: Network, other: Network): seq<Network>
    requires SubnetOf(other, net)
    decreases other.length - net.length
  {
    SubnetLength(other, net);
    if other == net then []
    else
      InHalf(net, other);
      var (lower, upper) := Halves(net);
      if SubnetOf(other, lower) then [upper] + Exclude(lower, other)
      else [lower] + Exclude(upper, other)
  }

  /** The i-th yielded block is one bit longer than the i-1-th: one block per
      bit between the two prefix lengths, largest first, each inside `net`
      and outside `other`. */
  lemma {:induction false} ExcludeShape(net: Network, other: Network)
    requires SubnetOf(other, net)
    ensures other.length >= net.length
    ensures |Exclude(net, other)| == other.length - net.length
    ensures forall j | 0 <= j < |Exclude(net, other)| ::
      Exclude(net, other)[j].length == net.length + 1 + j &&
      SubnetOf(Exclude(net, other)[j], net) &&
      Disjoint(Exclude(net, other)[j], other)
    decreases other.length - net.length
  {
    SubnetLength(other, net);
    if other != net {
      InHalf(net, other);
      var (lower, upper) := Halves(net);
      if SubnetOf(other, lower) {
        ExcludeShape(lower, other);
        Laminar(upper, other);
      } else {
        ExcludeShape(upper, other);
        Laminar(lower, other);
      }
    }
  }

  /** No two yielded blocks share an address. */
  lemma {:induction false} ExcludeDisjoint(net: Network, other: Network)
    requires SubnetOf(other, net)
    ensures PairwiseDisjoint(Exclude(net, other))
    decreases other.length - net.length
  {
    SubnetLength(other, net);
    if other != net {
      InHalf(net, other);
      var (lower, upper) := Halves(net);
      var (inner, outer) := if SubnetOf(other, lower) then (lower, upper) else (upper, lower);
      var pieces, tail := Exclude(net, other), Exclude(inner, other);
      assert pieces == [outer] + tail;
      ExcludeDisjoint(inner, other);
      ExcludeShape(inner, other);
      PrependDisjoint(outer, inner, tail);
    }
  }

  /** The yielded blocks together with `other` cover `net` exactly, and
      `other` shares no address with any of them. */
  lemma {:induction false} ExcludeCovers(net: Network, other: Network)
    requires SubnetOf(other, net)
    ensures Span(Exclude(net, other)) == Range(net) - Range(other)
    ensures Range(other) <= Range(net)
    decreases other.length - net.length
  {
    SubnetLength(other, net);
    RangeSubnet(other, net);
    if other != net {
      InHalf(net, other);
      var (lower, upper) := Halves(net);
      var (inner, outer) := if SubnetOf(other, lower) then (lower, upper) else (upper, lower);
      var pieces := Exclude(net, other);
      assert pieces == [outer] + Exclude(inner, other);
      assert pieces[1..] == Exclude(inner, other);
      ExcludeCovers(inner, other);
      RangeHalves(net);
      RangeDisjoint(lower, upper);
    }
  }

  /** One halving step: the first block yielded is the half without
      `other`, and the rest is yielded from the half with it. */
  lemma ExcludeStep(net: Network, other: Network)
    requires SubnetOf(other, net) && other != net
    ensures net.length < 32
    ensures SubnetOf(other, Halves(net).0) ==>
      Exclude(net, other) == [Halves(net).1] + Exclude(Halves(net).0, other)
    ensures !SubnetOf(other, Halves(net).0) ==>
      SubnetOf(other, Halves(net).1) && Exclude(net, other) == [Halves(net).0] + Exclude(Halves(net).1, other)
  {
    InHalf(net, other);
  }

  /** Every block inside `net` that misses `other` lies inside one yielded
      block: the pieces are as large as they can be. */
  lemma {:induction false} ExcludeMaximal(net: Network, other: Network, b: Network)
    requires SubnetOf(other, net) && SubnetOf(b, net) && Disjoint(b, other)
    ensures exists j :: 0 <= j < |Exclude(net, other)| && SubnetOf(b, Exclude(net, other)[j])
    decreases other.length - net.length, 0
  {
    SubnetLength(other, net);
    assert other != net;
    ExcludeStep(net, other);
    InHalf(net, b);
    var pieces := Exclude(net, other);
    var (lower, upper) := Halves(net);
    if SubnetOf(other, lower) {
      if SubnetOf(b, upper) {
        assert SubnetOf(b, pieces[0]);
      } else {
        OuterMaximal(lower, other, b, upper, pieces);
      }
    } else {
      if SubnetOf(b, lower) {
        assert SubnetOf(b, pieces[0]);
      } else {
        OuterMaximal(upper, other, b, lower, pieces);
      }
    }
  }

  /** The induction step of ExcludeMaximal: a block in the half that holds
      `other` lies in a piece yielded from that half. */
  lemma {:induction false} OuterMaximal(inner: Network, other: Network, b: Network, outer: Network, pieces: seq<Network>)
    requires SubnetOf(other, inner) && SubnetOf(b, inner) && Disjoint(b, other)
    requires pieces == [outer] + Exclude(inner, other)
    ensures exists j :: 0 <= j < |pieces| && SubnetOf(b, pieces[j])
    decreases other.length - inner.length, 1
  {
    ExcludeMaximal(inner, other, b);
    var j :| 0 <= j < |Exclude(inner, other)| && SubnetOf(b, Exclude(inner, other)[j]);
    assert pieces[j + 1] == Exclude(inner, other)[j];
  }

  /** Taking out the lowest sub-block of `net` yields upper halves: each
      yielded block starts its own size above `net.address`, so the blocks
      are a /(l+1), a /(l+2), ... lying right above ever smaller lowest
      blocks of `net`. */
  lemma {:induction false} ExcludeLowest(net: Network, other: Network)
    requires SubnetOf(other, net) && other.address == net.address
    ensures forall j | 0 <= j < |Exclude(net, other)| ::
      Exclude(net, other)[j].address == net.address + Size(Exclude(net, other)[j])
    decreases other.length - net.length
  {
    if other != net {
      ExcludeStep(net, other);
      var (lower, upper) := Halves(net);
      SubnetLength(other, net);
      if other.length > lower.length {
        Pow2Monotone(32 - other.length, 32 - lower.length);
      }
      assert SubnetOf(other, lower);
      ExcludeLowest(lower, other);
      var pieces := Exclude(net, other);
      forall j | 0 <= j < |pieces|
        ensures pieces[j].address == net.address + Size(pieces[j])
      {
        if j > 0 {
          assert pieces[j] == Exclude(lower, other)[j - 1];
        }
      }
    }
  }

  /** The last block yielded when taking out the lowest sub-block is the
      block of the same size right above it. */
  lemma {:induction false} LowestLastPiece(net: Network, other: Network, above: Network)
    requires SubnetOf(other, net) && other.address == net.address && net.length < other.length
    requires above.address == other.address + Size(other) && above.length == other.length
    ensures |Exclude(net, other)| == other.length - net.length
    ensures Exclude(net, other)[other.length - net.length - 1] == above
    decreases other.length - net.length
  {
    ExcludeShape(net, other);
    InHalf(net, other);
    var (lower, upper) := Halves(net);
    if other.length > lower.length {
      Pow2Monotone(32 - other.length, 32 - lower.length);
    }
    assert SubnetOf(other, lower);
    assert Exclude(net, other) == [upper] + Exclude(lower, other);
    if other.length > lower.length {
      LowestLastPiece(lower, other, above);
    }
  }

  /** The last step: when `other` is one of the halves, the other half is
      the last block yielded. */
  lemma ExcludeLast(net: Network, other: Network)
    requires SubnetOf(other, net) && other != net
    ensures net.length < 32
    ensures other == Halves(net).0 ==> Exclude(net, other) == [Halves(net).1]
    ensures other == Halves(net).1 ==> Exclude(net, other) == [Halves(net).0]
  {
    ExcludeStep(net, other);
    if other == Halves(net).1 {
      assert !SubnetOf(other, Halves(net).0);
    }
  }

  lemma Regroup(yielded: seq<Network>, piece: Network, rest: seq<Network>)
    ensures (yielded + [piece]) + rest == yielded + ([piece] + rest)
  {
  }

  /** The halving loop of address_exclude. It raises ValueError when `other`
      is not a subnet of `net` and otherwise yields exactly Exclude(net, other). */
  method AddressExclude(net: Network, other: Network) returns (r: Result<seq<Network>, ExcludeError>)
    ensures !SubnetOf(other, net) ==> r == Failure(NotContained)
    ensures SubnetOf(other, net) ==> r.Success? && r.value == Exclude(net, other)
  {
    if !SubnetOf(other, net) {
      return Failure(NotContained);
    }
    if other == net {
      return Success([]);
    }
    InHalf(net, other);
    var s1, s2 := Halves(net).0, Halves(net).1;
    ghost var current := net;
    var yielded: seq<Network> := [];
    while s1 != other && s2 != other
      invariant current.length < 32 && s1 == Halves(current).0 && s2 == Halves(current).1
      invariant SubnetOf(other, current) && other != current
      invariant yielded + Exclude(current, other) == Exclude(net, other)
      decreases other.length - s1.length
    {
      // The standard library raises AssertionError when `other` lies in
      // neither half; ExcludeStep shows that cannot happen.
      ExcludeStep(current, other);
      if SubnetOf(other, s1) {
        Regroup(yielded, s2, Exclude(s1, other));
        yielded, current := yielded + [s2], s1;
        SubnetLength(other, current);
        s1, s2 := Halves(s1).0, Halves(s1).1;
      } else {
        Regroup(yielded, s1, Exclude(s2, other));
        yielded, current := yielded + [s1], s2;
        SubnetLength(other, current);
        s1, s2 := Halves(s2).0, Halves(s2).1;
      }
    }
    ExcludeLast(current, other);
    if s1 == other {
      yielded := yielded + [s2];
    } else {
      yielded := yielded + [s1];
    }
    return Success(yielded);
  }
}
