/** The search for the position of lock and reserved bytes: a page below 16, a power of two for the page
    size and an offset below 16 that together make up a byte address. */
module PositionSearch {
  import opened Arithmetic

  function Pow2(n: nat): (p: nat)
    ensures p > 0
  {
    if n == 0 then 1 else 2 * Pow2(n - 1)
  }

  /** The true floor of the binary logarithm.  A single-precision logarithm has the same floor below
      2^21 - 1, where it first rounds up. */
  function FloorLog2(n: nat): (e: nat)
    requires n > 0
    ensures Pow2(e) <= n < Pow2(e + 1)
  {
    if n == 1 then 0 else 1 + FloorLog2(n / 2)
  }

  datatype Position = Position(page: nat, exponent: nat, offset: int)

  /** What a control TLV can say: four bits of page and four bits of offset, for this address. */
  predicate Says(p: Position, address: nat) {
    1 <= p.page <= 15 && 0 <= p.offset <= 15 && p.page * Pow2(p.exponent) + p.offset == address
  }

  /** The candidate the loop forms for a page. */
  function Candidate(address: nat, page: nat): Position
    requires 1 <= page <= address
  {
    var e := FloorLog2(AtLeastOne(address, page));
    Position(page, e, address - page * Pow2(e))
  }

  function AtLeastOne(address: nat, page: nat): (q: nat)
    requires 1 <= page <= address
    ensures q == address / page && 1 <= q && page * q <= address
  {
    address / page
  }

  // ----- the loop -----

  lemma {:induction false} Pow2Grows(a: nat, b: nat)
    requires a <= b
    ensures Pow2(a) <= Pow2(b)
  {
    if a < b {
      Pow2Grows(a, b - 1);
    }
  }

  lemma QuotientBound(n: nat, d: nat, k: nat)
    requires d > 0 && d * k <= n
    ensures k <= n / d
  {
    var q, r := n / d, n % d;
    assert n == d * q + r;
    if k > q {
      ProductGrows(d, q + 1, k);
    }
  }

  lemma CandidateOffset(address: nat, page: nat)
    requires 1 <= page <= address
    ensures Candidate(address, page).offset >= 0
  {
    var q := AtLeastOne(address, page);
    ProductGrows(page, Pow2(FloorLog2(q)), q);
  }

  /** If any exponent and offset do for a page, the candidate of that page does, with the least offset. */
  lemma CandidateIsBest(address: nat, p: Position)
    requires address >= 15 && Says(p, address)
    ensures Says(Candidate(address, p.page), address) && Candidate(address, p.page).offset <= p.offset
  {
    var q := AtLeastOne(address, p.page);
    var e := FloorLog2(q);
    QuotientBound(address, p.page, Pow2(p.exponent));
    if e < p.exponent {
      Pow2Grows(e + 1, p.exponent);
    }
    Pow2Grows(p.exponent, e);
    ProductGrows(p.page, Pow2(p.exponent), Pow2(e));
    CandidateOffset(address, p.page);
  }

  /** A control TLV with the fields of a position. */
  class ControlTlv {
    var page: nat
    var exponent: nat
    var offset: nat

    constructor (bytesPerPage: nat)
      ensures Held() == Position(0, bytesPerPage, 0)
    {
      page, exponent, offset := 0, bytesPerPage, 0;
    }

    ghost function Held(): Position
      reads this
    {
      Position(page, exponent, offset)
    }

    /** calculateLockPosition and calculateReservedPosition: down from page 15.  A position is found if
        there is one at all, with the greatest page and for it the least offset; otherwise the fields stay. */
    method CalculatePosition(address: nat)
      requires address >= 15
      modifies this
      ensures (exists p :: Says(p, address)) ==>
                && Says(Held(), address)
                && forall p :: Says(p, address) ==> p.page < page || (p.page == page && offset <= p.offset)
      ensures (forall p :: !Says(p, address)) ==> Held() == old(Held())
    {
      var i := 15;
      while i > 0
        invariant 0 <= i <= 15 && Held() == old(Held())
        invariant forall p :: Says(p, address) ==> p.page <= i
      {
        var bytesPerPage := FloorLog2(AtLeastOne(address, i));
        var left := address - i * Pow2(bytesPerPage);
        ghost var c := Candidate(address, i);
        CandidateOffset(address, i);
        forall p | Says(p, address)
          ensures p.page == i ==> Says(c, address) && c.offset <= p.offset
        {
          CandidateIsBest(address, p);
        }
        if left >= 0 && left <= 15 {
          page := i;
          exponent := bytesPerPage;
          offset := left;
          assert Says(Held(), address);
          return;
        }
        assert !Says(c, address);
        i := i - 1;
      }
    }
  }

  // ----- when there is a position -----

  /** The weight of the lowest of the top four bits of an address. */
  function TopWeight(address: nat): nat
    requires address >= 15
  {
    if address < 16 then 0 else FloorLog2(address) - if FloorLog2(address) < 3 then 0 else 3
  }

  lemma TopBits(address: nat)
    requires address >= 15
    ensures var w := TopWeight(address);
            && address < 16 * Pow2(w) && (w > 0 ==> 8 * Pow2(w) <= address) && (w == 0 ==> address == 15)
  {
    hide FloorLog2, Pow2;
    SmallPowers();
    if address >= 16 {
      var e := FloorLog2(address);
      if e < 4 {
        Pow2Grows(e + 1, 4);
      }
      EightAndSixteen(e - 3);
    }
  }

  lemma SmallPowers()
    ensures Pow2(0) == 1 && Pow2(3) == 8 && Pow2(4) == 16 && Pow2(5) == 32
  {
    assert Pow2(2) == 4;
  }

  lemma EightAndSixteen(k: nat)
    ensures Pow2(k + 3) == 8 * Pow2(k) && Pow2(k + 4) == 16 * Pow2(k)
  {
    assert Pow2(k + 2) == 4 * Pow2(k);
  }

  lemma {:induction false} Pow2Splits(a: nat, b: nat)
    requires a <= b
    ensures Pow2(b) == Pow2(a) * Pow2(b - a)
  {
    if a < b {
      Pow2Splits(a, b - 1);
      assert Pow2(a) * (2 * Pow2(b - a - 1)) == 2 * (Pow2(a) * Pow2(b - a - 1));
    }
  }

  /** Adding a multiple of d does not raise the remainder above what was added to. */
  lemma RemainderAtMost(n: nat, d: nat, k: nat, o: nat)
    requires d > 0 && n == d * k + o
    ensures n % d <= o
  {
    var q, r := o / d, o % d;
    assert o == d * q + r && n == d * (k + q) + r;
    RemainderUnique(n, d, k + q, r);
    ProductGrows(d, 0, q);
  }

  lemma Commute(a: nat, b: nat, c: nat)
    ensures a * (b * c) == b * (a * c)
  {
  }

  lemma Doubles(k: nat)
    ensures Pow2(k + 1) == 2 * Pow2(k)
  {
  }

  /** A number between d and 16 d is a page times d and a remainder. */
  lemma PageAndRest(n: nat, d: nat)
    requires d > 0 && d <= n < 16 * d
    ensures 1 <= n / d <= 15 && (n / d) * d + n % d == n
  {
    var q, r := n / d, n % d;
    assert n == d * q + r;
    MultipleIsZeroOrFar(d, q);
    if q >= 16 {
      ProductGrows(d, 16, q);
    }
  }

  lemma PositionMeansGap(p: Position, address: nat)
    requires address >= 15 && Says(p, address)
    ensures address % Pow2(TopWeight(address)) < 16
  {
    hide Pow2, FloorLog2, TopWeight;
    var w, f := TopWeight(address), p.exponent;
    TopBits(address);
    SmallPowers();
    if f >= w {
      Pow2Splits(w, f);
      Commute(p.page, Pow2(w), Pow2(f - w));
      RemainderAtMost(address, Pow2(w), p.page * Pow2(f - w), p.offset);
    } else {
      Pow2Grows(f, w - 1);
      ProductGrows(p.page, Pow2(f), Pow2(w - 1));
      ProductGrows(Pow2(w - 1), p.page, 15);
      Doubles(w - 1);
      if w >= 5 {
        Pow2Grows(5, w);
      } else {
        Pow2Grows(w, 4);
      }
      RemainderIsBelow(address, Pow2(w));
    }
  }

  lemma GapMeansPosition(address: nat)
    requires address >= 15 && address % Pow2(TopWeight(address)) < 16
    ensures Says(Position(address / Pow2(TopWeight(address)), TopWeight(address), address % Pow2(TopWeight(address))), address)
  {
    hide Pow2, FloorLog2, TopWeight;
    TopBits(address);
    SmallPowers();
    PageAndRest(address, Pow2(TopWeight(address)));
  }

  /** There is a position for an address if and only if, below its top four bits, only the four lowest
      bits are set; so there always is one up to 255. */
  lemma PositionExactlyWhen(address: nat)
    requires address >= 15
    ensures (exists p :: Says(p, address)) <==> address % Pow2(TopWeight(address)) < 16
    ensures address <= 255 ==> exists p :: Says(p, address)
  {
    hide Pow2, FloorLog2, TopWeight;
    var w := TopWeight(address);
    if p :| Says(p, address) {
      PositionMeansGap(p, address);
    }
    if address % Pow2(w) < 16 {
      GapMeansPosition(address);
    }
    if address <= 255 {
      TopBits(address);
      SmallPowers();
      if w >= 5 {
        Pow2Grows(5, w);
      } else {
        Pow2Grows(w, 4);
      }
      RemainderIsBelow(address, Pow2(w));
    }
  }
}
