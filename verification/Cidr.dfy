/** CIDR blocks (section 3.1 of RFC 4632) as Python's `ipaddress` compares them. */
module Cidr {

  // ----- bits ---------------------------------------------------------------------------

  /** v >> n. */
  function Shift(v: nat, n: nat): nat {
    if n == 0 then v else Shift(v / 2, n - 1)
  }

  /** The lowest and the highest number whose high bits, above n low ones, are i. */
  function Low(i: nat, n: nat): nat {
    if n == 0 then i else 2 * Low(i, n - 1)
  }

  function High(i: nat, n: nat): nat {
    if n == 0 then i else 2 * High(i, n - 1) + 1
  }

  lemma {:induction false} ShiftRange(v: nat, n: nat, i: nat)
    ensures Shift(v, n) == i <==> Low(i, n) <= v <= High(i, n)
  {
    if n > 0 {
      ShiftRange(v / 2, n - 1, i);
    }
  }

  lemma {:induction false} LowBelowHigh(i: nat, n: nat)
    ensures Low(i, n) <= High(i, n)
    ensures n > 0 ==> Low(i, n) < High(i, n)
  {
    if n > 0 {
      LowBelowHigh(i, n - 1);
    }
  }

  lemma {:induction false} ShiftAdds(v: nat, m: nat, n: nat)
    ensures Shift(v, m + n) == Shift(Shift(v, m), n)
  {
    if m > 0 {
      ShiftAdds(v / 2, m - 1, n);
    }
  }

  lemma {:induction false} ShiftEnds(i: nat, n: nat, k: nat)
    requires k <= n
    ensures Shift(Low(i, n), k) == Low(i, n - k) && Shift(High(i, n), k) == High(i, n - k)
  {
    if k > 0 {
      ShiftEnds(i, n - 1, k - 1);
    }
  }

  // ----- blocks -------------------------------------------------------------------------

  datatype Address = Address(bits: nat, value: nat)

  /** `free` is how many low bits the block leaves open, `index` the bits above them. */
  datatype Block = Block(bits: nat, free: nat, index: nat)
  {
    /** `network_address` and `broadcast_address`. */
    function First(): Address {
      Address(bits, Low(index, free))
    }

    function Last(): Address {
      Address(bits, High(index, free))
    }

    /** `address in network`: the masked address is the network's, never across versions. */
    predicate Contains(a: Address) {
      a.bits == bits && Shift(a.value, free) == index
    }

    /** `overlaps`: either holds an end of the other. */
    predicate Overlaps(that: Block) {
      Contains(that.First()) || Contains(that.Last()) || that.Contains(First()) || that.Contains(Last())
    }

    /** `subnet_of`, between blocks of one version. */
    predicate SubnetOf(that: Block) {
      bits == that.bits && that.First().value <= First().value && Last().value <= that.Last().value
    }
  }

  function Pow2(n: nat): nat {
    if n == 0 then 1 else 2 * Pow2(n - 1)
  }

  lemma {:induction false} LowAndHigh(i: nat, n: nat)
    ensures Low(i, n) == i * Pow2(n) && High(i, n) == i * Pow2(n) + Pow2(n) - 1
  {
    if n > 0 {
      LowAndHigh(i, n - 1);
      assert 2 * (i * Pow2(n - 1)) == i * (2 * Pow2(n - 1));
    }
  }

  /** A block with n open bits holds the 2^n addresses of its version from index * 2^n on, and its
      ends are the first and the last of them. */
  lemma {:induction false} ContainsExactly(n: Block, a: Address)
    ensures n.Contains(a)
       <==> a.bits == n.bits && n.index * Pow2(n.free) <= a.value < n.index * Pow2(n.free) + Pow2(n.free)
    ensures n.First() == Address(n.bits, n.index * Pow2(n.free))
    ensures n.Last().bits == n.bits && n.Last().value == n.index * Pow2(n.free) + Pow2(n.free) - 1
  {
    ShiftRange(a.value, n.free, n.index);
    LowAndHigh(n.index, n.free);
  }

  /** A block inside another is one with fewer open bits and the same bits above the other's. */
  lemma {:induction false} SubnetExactly(m: Block, n: Block)
    ensures m.SubnetOf(n) <==> m.bits == n.bits && m.free <= n.free && Shift(m.index, n.free - m.free) == n.index
  {
    var first, last := Low(m.index, m.free), High(m.index, m.free);
    ShiftRange(first, n.free, n.index);
    ShiftRange(last, n.free, n.index);
    LowBelowHigh(m.index, m.free);
    if m.free <= n.free {
      ShiftAdds(first, m.free, n.free - m.free);
      ShiftAdds(last, m.free, n.free - m.free);
      ShiftEnds(m.index, m.free, m.free);
    } else {
      ShiftEnds(m.index, m.free, n.free);
      LowBelowHigh(m.index, m.free - n.free);
    }
  }

  lemma {:induction false} SubnetContains(m: Block, n: Block, a: Address)
    requires m.SubnetOf(n) && m.Contains(a)
    ensures n.Contains(a)
  {
    SubnetExactly(m, n);
    ShiftAdds(a.value, m.free, n.free - m.free);
  }

  lemma {:induction false} EndsContained(m: Block)
    ensures m.Contains(m.First()) && m.Contains(m.Last())
  {
    ShiftEnds(m.index, m.free, m.free);
  }

  /** The block with fewer open bits, if it shares an address with the other, is inside it. */
  lemma {:induction false} SmallerIsInside(small: Block, large: Block, a: Address)
    requires small.free <= large.free && small.Contains(a) && large.Contains(a)
    ensures small.SubnetOf(large)
  {
    ShiftAdds(a.value, small.free, large.free - small.free);
    SubnetExactly(small, large);
  }

  /** Two blocks overlap exactly when they share an address, and then one is inside the other. */
  lemma {:induction false} NestedOrDisjoint(m: Block, n: Block)
    ensures m.Overlaps(n) <==> exists a :: m.Contains(a) && n.Contains(a)
    ensures m.Overlaps(n) <==> m.SubnetOf(n) || n.SubnetOf(m)
  {
    EndsContained(m);
    EndsContained(n);
    if a :| m.Contains(a) && n.Contains(a) {
      if m.free <= n.free {
        SmallerIsInside(m, n, a);
        SubnetContains(m, n, m.First());
      } else {
        SmallerIsInside(n, m, a);
        SubnetContains(n, m, n.First());
      }
    }
    if m.SubnetOf(n) {
      SubnetContains(m, n, m.First());
    }
    if n.SubnetOf(m) {
      SubnetContains(n, m, n.First());
    }
  }

  /** What the checker calls the overlap: the smaller of the two. */
  function Overlap(network: Block, cidr: Block): Block {
    if network.SubnetOf(cidr) then network else cidr
  }

  lemma {:induction false} OverlapIsIntersection(network: Block, cidr: Block, a: Address)
    requires cidr.Overlaps(network)
    ensures Overlap(network, cidr).Contains(a) <==> network.Contains(a) && cidr.Contains(a)
  {
    NestedOrDisjoint(cidr, network);
    if network.SubnetOf(cidr) {
      if network.Contains(a) {
        SubnetContains(network, cidr, a);
      }
    } else if cidr.Contains(a) {
      SubnetContains(cidr, network, a);
    }
  }

  // ----- covering a block with blocks ---------------------------------------------------

  ghost predicate Covered(a: Address, es: seq<Block>) {
    exists i :: 0 <= i < |es| && es[i].Contains(a)
  }

  /** Every address of the block is in some entry. */
  ghost predicate Covers(es: seq<Block>, n: Block) {
    forall a :: n.Contains(a) ==> Covered(a, es)
  }

  /** Some one entry holds the whole block: what the checker asks for. */
  predicate CoveredByOne(es: seq<Block>, n: Block) {
    exists i :: 0 <= i < |es| && n.SubnetOf(es[i])
  }

  /** The halves of one block. */
  predicate Siblings(m: Block, n: Block) {
    m.bits == n.bits && m.free == n.free && m.index / 2 == n.index / 2 && m.index != n.index
  }

  /** A list `collapse_addresses` would leave as it is: no entry inside another, no two halves. */
  predicate Collapsed(es: seq<Block>) {
    forall i, j :: 0 <= i < |es| && 0 <= j < |es| && i != j ==>
      !es[i].SubnetOf(es[j]) && !Siblings(es[i], es[j])
  }

  lemma {:induction false} OneCoverCovers(es: seq<Block>, n: Block)
    requires CoveredByOne(es, n)
    ensures Covers(es, n)
  {
    var i :| 0 <= i < |es| && n.SubnetOf(es[i]);
    forall a | n.Contains(a)
      ensures Covered(a, es)
    {
      SubnetContains(n, es[i], a);
    }
  }

  function Parent(n: Block): Block {
    Block(n.bits, n.free + 1, n.index / 2)
  }

  /** Wherever both halves of a block inside c are entries, some one entry holds that block. */
  predicate JoinedIn(es: seq<Block>, c: Block) {
    forall i, j :: 0 <= i < |es| && 0 <= j < |es| && Siblings(es[i], es[j]) && Parent(es[i]).SubnetOf(c) ==>
      CoveredByOne(es, Parent(es[i]))
  }

  predicate Joined(es: seq<Block>) {
    forall i, j :: 0 <= i < |es| && 0 <= j < |es| && Siblings(es[i], es[j]) ==> CoveredByOne(es, Parent(es[i]))
  }

  function Half(n: Block, k: nat): Block
    requires n.free > 0
  {
    Block(n.bits, n.free - 1, 2 * n.index + k)
  }

  lemma {:induction false} SubnetOfItself(n: Block)
    ensures n.SubnetOf(n)
  {
  }

  lemma {:induction false} SubnetTransitive(m: Block, n: Block, c: Block)
    requires m.SubnetOf(n) && n.SubnetOf(c)
    ensures m.SubnetOf(c)
  {
  }

  lemma {:induction false} HalfInside(n: Block, k: nat)
    requires n.free > 0 && k < 2
    ensures Half(n, k).SubnetOf(n) && Parent(Half(n, k)) == n
  {
    SubnetExactly(Half(n, k), n);
    assert Shift(2 * n.index + k, 1) == Shift((2 * n.index + k) / 2, 0);
  }

  lemma {:induction false} InOneHalf(n: Block, a: Address)
    requires n.free > 0 && n.Contains(a)
    ensures Half(n, 0).Contains(a) || Half(n, 1).Contains(a)
  {
    ShiftAdds(a.value, n.free - 1, 1);
    var half := Shift(a.value, n.free - 1);
    assert Shift(half, 1) == Shift(half / 2, 0) == half / 2;
  }

  /** An entry over a half is that half or lies over the whole. */
  lemma {:induction false} OverHalf(n: Block, k: nat, e: Block)
    requires n.free > 0 && k < 2 && Half(n, k).SubnetOf(e)
    ensures e == Half(n, k) || n.SubnetOf(e)
  {
    SubnetExactly(Half(n, k), e);
    if e.free > n.free - 1 {
      HalfInside(n, k);
      var a := Half(n, k).First();
      EndsContained(Half(n, k));
      SubnetContains(Half(n, k), n, a);
      SubnetContains(Half(n, k), e, a);
      SmallerIsInside(n, e, a);
    }
  }

  lemma {:induction false} HalfCovered(es: seq<Block>, n: Block, k: nat)
    requires n.free > 0 && k < 2 && Covers(es, n)
    ensures Covers(es, Half(n, k))
  {
    HalfInside(n, k);
    forall a | Half(n, k).Contains(a)
      ensures Covered(a, es)
    {
      SubnetContains(Half(n, k), n, a);
    }
  }

  /** By halving: entries that together cover a block join up to one that does. */
  lemma {:induction false} CoverJoins(es: seq<Block>, c: Block, n: Block)
    requires JoinedIn(es, c) && n.SubnetOf(c) && Covers(es, n)
    ensures CoveredByOne(es, n)
    decreases n.free
  {
    if n.free == 0 {
      EndsContained(n);
      assert Covered(n.First(), es);
      var i :| 0 <= i < |es| && es[i].Contains(n.First());
      SmallerIsInside(n, es[i], n.First());
    } else {
      var i := CoverOfHalf(es, c, n, 0);
      var j := CoverOfHalf(es, c, n, 1);
      HalfInside(n, 0);
      OverHalf(n, 0, es[i]);
      OverHalf(n, 1, es[j]);
      assert es[i] == Half(n, 0) && es[j] == Half(n, 1) ==> Siblings(es[i], es[j]) && Parent(es[i]) == n;
    }
  }

  lemma {:induction false} CoverOfHalf(es: seq<Block>, c: Block, n: Block, k: nat) returns (i: nat)
    requires JoinedIn(es, c) && n.SubnetOf(c) && Covers(es, n) && n.free > 0 && k < 2
    ensures i < |es| && Half(n, k).SubnetOf(es[i])
    decreases n.free, 0
  {
    HalfInside(n, k);
    SubnetTransitive(Half(n, k), n, c);
    HalfCovered(es, n, k);
    CoverJoins(es, c, Half(n, k));
    i :| 0 <= i < |es| && Half(n, k).SubnetOf(es[i]);
  }

  /** Two halves cover their whole. */
  lemma {:induction false} SiblingsCover(es: seq<Block>, i: nat, j: nat)
    requires i < |es| && j < |es| && Siblings(es[i], es[j])
    ensures Covers(es, Parent(es[i]))
  {
    var n := Parent(es[i]);
    forall a | n.Contains(a)
      ensures Covered(a, es)
    {
      InOneHalf(n, a);
      assert es[i] in [Half(n, 0), Half(n, 1)] && es[j] in [Half(n, 0), Half(n, 1)];
      assert es[i].Contains(a) || es[j].Contains(a);
    }
  }

  /** The list covers a block exactly when one entry does. */
  ghost predicate OneIsEnough(es: seq<Block>, n: Block) {
    Covers(es, n) <==> CoveredByOne(es, n)
  }

  /** The checker's one-entry test is exact for every block inside c exactly when the list is
      joined there. */
  lemma {:induction false} OneIsEnoughExactly(es: seq<Block>, c: Block)
    ensures (forall n: Block :: n.SubnetOf(c) ==> OneIsEnough(es, n)) <==> JoinedIn(es, c)
  {
    forall n: Block | JoinedIn(es, c) && n.SubnetOf(c)
      ensures OneIsEnough(es, n)
    {
      if CoveredByOne(es, n) {
        OneCoverCovers(es, n);
      } else if Covers(es, n) {
        CoverJoins(es, c, n);
      }
    }
    if forall n: Block :: n.SubnetOf(c) ==> OneIsEnough(es, n) {
      forall i, j | 0 <= i < |es| && 0 <= j < |es| && Siblings(es[i], es[j]) && Parent(es[i]).SubnetOf(c)
        ensures CoveredByOne(es, Parent(es[i]))
      {
        SiblingsCover(es, i, j);
        assert OneIsEnough(es, Parent(es[i]));
      }
    }
  }

  /** The same for every block there is. */
  lemma {:induction false} CoverIsOneExactly(es: seq<Block>)
    ensures (forall n :: OneIsEnough(es, n)) <==> Joined(es)
  {
    forall n | Joined(es)
      ensures OneIsEnough(es, n)
    {
      SubnetOfItself(n);
      OneIsEnoughExactly(es, n);
    }
    if forall n :: OneIsEnough(es, n) {
      forall i, j | 0 <= i < |es| && 0 <= j < |es| && Siblings(es[i], es[j])
        ensures CoveredByOne(es, Parent(es[i]))
      {
        SiblingsCover(es, i, j);
        assert OneIsEnough(es, Parent(es[i]));
      }
    }
  }

  /** A list `collapse_addresses` leaves as it is is one such. */
  lemma {:induction false} CollapsedCoverIsOne(es: seq<Block>, n: Block)
    requires Collapsed(es)
    ensures Covers(es, n) <==> CoveredByOne(es, n)
  {
    assert forall i, j :: 0 <= i < |es| && 0 <= j < |es| ==> !Siblings(es[i], es[j]);
    CoverIsOneExactly(es);
    assert OneIsEnough(es, n);
  }
}
