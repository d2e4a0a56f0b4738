/** Polynomials over GF(2), written as bit sequences with the highest power first, and
    the bit-serial division register that every CRC of the repository runs.

    A register of W bits divides by the monic polynomial x^W + poly, where poly lists the
    W lower coefficients.  Feed is the register, Times and Xor are ordinary polynomial
    arithmetic; Division ties the two together, RemainderIsUnique says that Feed is *the*
    remainder, and DetectsBurst is the reason CRCs are used at all. */
module Gf2 {
  type Bits = seq<bool>

  function Zeros(n: nat): (z: Bits)
    ensures |z| == n
  {
    seq(n, _ => false)
  }

  function Xor(a: Bits, b: Bits): (c: Bits)
    requires |a| == |b|
    ensures |c| == |a|
  {
    seq(|a|, i requires 0 <= i < |a| => a[i] != b[i])
  }

  function Mask(keep: bool, a: Bits): (m: Bits)
    ensures |m| == |a|
  {
    if keep then a else Zeros(|a|)
  }

  /** One clock of the division register: shift left, and subtract the divisor when the
      bit that leaves differs from the bit that arrives. */
  function Step(reg: Bits, bit: bool, poly: Bits): (next: Bits)
    requires |reg| == |poly| > 0
    ensures |next| == |poly|
  {
    Xor(reg[1..] + [false], Mask(reg[0] != bit, poly))
  }

  function Feed(reg: Bits, bits: Bits, poly: Bits): (out: Bits)
    requires |reg| == |poly| > 0
    ensures |out| == |poly|
    decreases |bits|
  {
    if bits == [] then reg else Feed(Step(reg, bits[0], poly), bits[1..], poly)
  }

  /** The product of q and the divisor x^W + poly. */
  function Times(q: Bits, poly: Bits): (p: Bits)
    ensures |p| == |q| + |poly|
  {
    if q == [] then Zeros(|poly|)
    else Xor(Mask(q[0], [true] + poly) + Zeros(|q| - 1), [false] + Times(q[1..], poly))
  }

  /** The bits that decide each subtraction: the quotient of the division. */
  function Quotient(reg: Bits, bits: Bits, poly: Bits): (q: Bits)
    requires |reg| == |poly| > 0
    ensures |q| == |bits|
    decreases |bits|
  {
    if bits == [] then []
    else [reg[0] != bits[0]] + Quotient(Step(reg, bits[0], poly), bits[1..], poly)
  }

  lemma {:induction false} FeedSplit(reg: Bits, a: Bits, b: Bits, poly: Bits)
    requires |reg| == |poly| > 0
    ensures Feed(reg, a + b, poly) == Feed(Feed(reg, a, poly), b, poly)
    decreases |a|
  {
    if a == [] {
      assert a + b == b;
    } else {
      assert (a + b)[1..] == a[1..] + b;
      FeedSplit(Step(reg, a[0], poly), a[1..], b, poly);
    }
  }

  lemma XorIsZero(a: Bits, b: Bits)
    requires |a| == |b|
    ensures Xor(a, b) == Zeros(|a|) <==> a == b
  {
    if Xor(a, b) == Zeros(|a|) {
      forall i | 0 <= i < |a| ensures a[i] == b[i] {
        assert !Xor(a, b)[i];
      }
    }
  }

  lemma XorRegroup(top: Bits, p: Bits, n: nat, low: Bits)
    requires n > 0 && |top| == |p| + 1 == n + |low|
    ensures Xor(Xor(top, [false] + p), Zeros(n) + low)
         == Xor(top, [false] + Xor(p, Zeros(n - 1) + low))
  {
    var l := Xor(Xor(top, [false] + p), Zeros(n) + low);
    var r := Xor(top, [false] + Xor(p, Zeros(n - 1) + low));
    forall i | 0 <= i < |l| ensures l[i] == r[i] {
      if i > 0 {
        assert (Zeros(n) + low)[i] == (Zeros(n - 1) + low)[i - 1];
      }
    }
  }

  /** Clocking one bit takes the divisor off the top of the dividend when the bits differ. */
  lemma DivisionStep(reg: Bits, bits: Bits, poly: Bits)
    requires |reg| == |poly| > 0 && bits != []
    ensures Xor(bits + Zeros(|poly|), reg + Zeros(|bits|))
         == Xor(Mask(reg[0] != bits[0], [true] + poly) + Zeros(|bits| - 1),
                [false] + Xor(bits[1..] + Zeros(|poly|), Step(reg, bits[0], poly) + Zeros(|bits| - 1)))
  {
    var next := Step(reg, bits[0], poly);
    var top := Mask(reg[0] != bits[0], [true] + poly);
    assert forall i | 1 <= i <= |poly| :: top[i] == Mask(reg[0] != bits[0], poly)[i - 1];
    assert forall i | 0 <= i < |poly| ::
      next[i] == ((if i + 1 < |poly| then reg[i + 1] else false) != top[i + 1]);
    var l := Xor(bits + Zeros(|poly|), reg + Zeros(|bits|));
    var r := Xor(top + Zeros(|bits| - 1),
                 [false] + Xor(bits[1..] + Zeros(|poly|), next + Zeros(|bits| - 1)));
    forall i | 0 <= i < |l| ensures l[i] == r[i] {
      if i > 0 {
        assert r[i] == ((top + Zeros(|bits| - 1))[i]
                        != Xor(bits[1..] + Zeros(|poly|), next + Zeros(|bits| - 1))[i - 1]);
      }
    }
  }

  /** (message * x^W) + (start value * x^|message|) == quotient * divisor + register. */
  lemma {:induction false} Division(reg: Bits, bits: Bits, poly: Bits)
    requires |reg| == |poly| > 0
    ensures Xor(bits + Zeros(|poly|), reg + Zeros(|bits|))
         == Xor(Times(Quotient(reg, bits, poly), poly), Zeros(|bits|) + Feed(reg, bits, poly))
    decreases |bits|
  {
    if bits == [] {
      assert Xor(Zeros(|poly|), reg) == Xor(Zeros(|poly|), [] + Feed(reg, bits, poly));
      assert bits + Zeros(|poly|) == Zeros(|poly|) && reg + Zeros(0) == reg;
    } else {
      var next := Step(reg, bits[0], poly);
      var q := Quotient(next, bits[1..], poly);
      assert Quotient(reg, bits, poly)[1..] == q;
      DivisionStep(reg, bits, poly);
      Division(next, bits[1..], poly);
      XorRegroup(Mask(reg[0] != bits[0], [true] + poly) + Zeros(|q|), Times(q, poly),
                 |bits|, Feed(next, bits[1..], poly));
    }
  }

  /** The dividend's first bit is the quotient's first bit; taking that multiple of the
      divisor away leaves the same problem one bit shorter. */
  lemma PeelQuotient(q: Bits, r: Bits, poly: Bits)
    requires |r| == |poly| && q != []
    ensures Xor(Times(q, poly), Zeros(|q|) + r)
         == Xor(Mask(q[0], [true] + poly) + Zeros(|q| - 1),
                [false] + Xor(Times(q[1..], poly), Zeros(|q| - 1) + r))
  {
    XorRegroup(Mask(q[0], [true] + poly) + Zeros(|q| - 1), Times(q[1..], poly), |q|, r);
  }

  lemma XorCancels(top: Bits, a: Bits, b: Bits)
    requires |top| == |a| + 1 == |b| + 1
    requires Xor(top, [false] + a) == Xor(top, [false] + b)
    ensures a == b
  {
    var l, r := Xor(top, [false] + a), Xor(top, [false] + b);
    forall i | 0 <= i < |a| ensures a[i] == b[i] {
      assert l[i + 1] == (top[i + 1] != a[i]) && r[i + 1] == (top[i + 1] != b[i]);
    }
  }

  /** A polynomial has one quotient and one remainder. */
  lemma {:induction false} RemainderIsUnique(q: Bits, r: Bits, q': Bits, r': Bits, poly: Bits)
    requires |r| == |r'| == |poly| && |q| == |q'|
    requires Xor(Times(q, poly), Zeros(|q|) + r) == Xor(Times(q', poly), Zeros(|q'|) + r')
    ensures q == q' && r == r'
    decreases |q|
  {
    if q == [] {
      assert Xor(Zeros(|r|), Zeros(0) + r) == r && Xor(Zeros(|r|), Zeros(0) + r') == r';
    } else {
      PeelQuotient(q, r, poly);
      PeelQuotient(q', r', poly);
      LeadingBit(Xor(Times(q, poly), Zeros(|q|) + r), q, r, poly);
      LeadingBit(Xor(Times(q, poly), Zeros(|q|) + r), q', r', poly);
      XorCancels(Mask(q[0], [true] + poly) + Zeros(|q| - 1),
                 Xor(Times(q[1..], poly), Zeros(|q| - 1) + r),
                 Xor(Times(q'[1..], poly), Zeros(|q| - 1) + r'));
      RemainderIsUnique(q[1..], r, q'[1..], r', poly);
      assert q == [q[0]] + q[1..] && q' == [q'[0]] + q'[1..];
    }
  }

  lemma LeadingBit(d: Bits, q: Bits, r: Bits, poly: Bits)
    requires |r| == |poly| && q != []
    requires d == Xor(Times(q, poly), Zeros(|q|) + r)
    ensures d[0] == q[0]
  {
    assert Times(q, poly)[0] == (Mask(q[0], [true] + poly) + Zeros(|q| - 1))[0];
  }

  /** bits(x) * x^W + start(x) * x^|bits|: what a register that starts at start divides. */
  function Dividend(bits: Bits, start: Bits): (d: Bits)
    ensures |d| == |bits| + |start|
  {
    Xor(bits + Zeros(|start|), start + Zeros(|bits|))
  }

  /** rem is what is left of the dividend after taking away a multiple of x^W + poly. */
  ghost predicate IsRemainder(dividend: Bits, poly: Bits, rem: Bits) {
    && |rem| == |poly| <= |dividend|
    && exists q: Bits :: |q| == |dividend| - |poly| && dividend == Xor(Times(q, poly), Zeros(|q|) + rem)
  }

  /** The register holds the remainder of the polynomial division, and nothing else does. */
  lemma FeedIsTheRemainder(bits: Bits, start: Bits, poly: Bits, rem: Bits)
    requires |start| == |poly| > 0
    ensures IsRemainder(Dividend(bits, start), poly, rem) <==> rem == Feed(start, bits, poly)
  {
    Division(start, bits, poly);
    var q := Quotient(start, bits, poly);
    if IsRemainder(Dividend(bits, start), poly, rem) {
      var q' :| |q'| == |bits| && Dividend(bits, start) == Xor(Times(q', poly), Zeros(|q'|) + rem);
      RemainderIsUnique(q, Feed(start, bits, poly), q', rem, poly);
    }
  }

  lemma StepLinear(c: Bits, d: Bits, a: bool, b: bool, poly: Bits)
    requires |c| == |d| == |poly| > 0
    ensures Step(Xor(c, d), a != b, poly) == Xor(Step(c, a, poly), Step(d, b, poly))
  {
    assert Step(Xor(c, d), a != b, poly) == Xor(Step(c, a, poly), Step(d, b, poly));
  }

  /** The register is linear in its start value and its input together. */
  lemma {:induction false} FeedLinear(c: Bits, d: Bits, a: Bits, b: Bits, poly: Bits)
    requires |c| == |d| == |poly| > 0 && |a| == |b|
    ensures Feed(Xor(c, d), Xor(a, b), poly) == Xor(Feed(c, a, poly), Feed(d, b, poly))
    decreases |a|
  {
    if a != [] {
      StepLinear(c, d, a[0], b[0], poly);
      assert Xor(a, b)[1..] == Xor(a[1..], b[1..]);
      FeedLinear(Step(c, a[0], poly), Step(d, b[0], poly), a[1..], b[1..], poly);
    }
  }

  /** The one place where the constant term of the divisor matters: the register comes to
      zero after at most W more bits exactly when those bits equal its leading bits and
      the others are zero. */
  lemma {:induction false} ZeroAfter(reg: Bits, bits: Bits, poly: Bits)
    requires |reg| == |poly| > 0 && poly[|poly| - 1]
    requires |bits| <= |poly|
    ensures Feed(reg, bits, poly) == Zeros(|poly|) <==> reg == bits + Zeros(|poly| - |bits|)
    decreases |bits|
  {
    var w := |poly|;
    if bits == [] {
      assert bits + Zeros(w) == Zeros(w);
    } else {
      var next := Step(reg, bits[0], poly);
      var rest := bits[1..];
      ZeroAfter(next, rest, poly);
      var target := rest + Zeros(w - |rest|);
      var goal := bits + Zeros(w - |bits|);
      assert !target[w - 1];
      if next == target {
        assert next[w - 1] == (reg[0] != bits[0]);
        assert reg[0] == bits[0];
        assert forall i | 0 <= i < w - 1 :: reg[i + 1] == next[i];
        assert forall i | 0 < i < w :: reg[i] == target[i - 1];
        assert reg == goal;
      }
      if reg == goal {
        assert reg[0] == bits[0];
        assert reg[1..] + [false] == target;
        assert next == target;
      }
    }
  }

  lemma FeedZerosKeepsNonZero(reg: Bits, n: nat, poly: Bits)
    requires |reg| == |poly| > 0 && poly[|poly| - 1]
    ensures Feed(reg, Zeros(n), poly) == Zeros(|poly|) <==> reg == Zeros(|poly|)
    decreases n
  {
    if n > 0 {
      var next := Step(reg, false, poly);
      assert Zeros(n)[1..] == Zeros(n - 1);
      FeedZerosKeepsNonZero(next, n - 1, poly);
      assert [false] + Zeros(|poly| - 1) == Zeros(|poly|);
      ZeroAfter(reg, [false], poly);
      assert [false][1..] == [];
      assert Feed(reg, [false], poly) == Feed(next, [], poly) == next;
    }
  }

  /** Feeding at most W bits is the same as adding them to the register and then feeding
      zeros: the form in which the byte-wise routines do it. */
  lemma FeedAsAdd(reg: Bits, bits: Bits, poly: Bits)
    requires |reg| == |poly| > 0 && poly[|poly| - 1]
    requires |bits| <= |poly|
    ensures Feed(reg, bits, poly)
         == Feed(Xor(reg, bits + Zeros(|poly| - |bits|)), Zeros(|bits|), poly)
  {
    var padded := bits + Zeros(|poly| - |bits|);
    ZeroAfter(padded, bits, poly);
    FeedLinear(reg, padded, bits, bits, poly);
    assert Xor(bits, bits) == Zeros(|bits|);
    assert Xor(Feed(reg, bits, poly), Zeros(|poly|)) == Feed(reg, bits, poly);
  }

  lemma {:induction false} FeedZerosThrough(n: nat, low: Bits, poly: Bits)
    requires |poly| == n + |low| > 0
    ensures Feed(Zeros(n) + low, Zeros(n), poly) == low + Zeros(n)
    decreases n
  {
    if n == 0 {
      assert Zeros(0) + low == low == low + Zeros(0);
    } else {
      var longer := low + [false];
      assert Step(Zeros(n) + low, false, poly) == Zeros(n - 1) + longer;
      assert Zeros(n)[1..] == Zeros(n - 1);
      FeedZerosThrough(n - 1, longer, poly);
      assert longer + Zeros(n - 1) == low + Zeros(n);
    }
  }

  /** Two messages end in the same register exactly when their difference divides out. */
  lemma SameRegister(reg: Bits, a: Bits, b: Bits, poly: Bits)
    requires |reg| == |poly| > 0 && |a| == |b|
    ensures Feed(reg, a, poly) == Feed(reg, b, poly)
       <==> Feed(Zeros(|poly|), Xor(a, b), poly) == Zeros(|poly|)
  {
    FeedLinear(reg, reg, a, b, poly);
    XorIsZero(reg, reg);
    XorIsZero(Feed(reg, a, poly), Feed(reg, b, poly));
  }

  lemma BurstLeavesNonZero(lead: nat, burst: Bits, trail: nat, poly: Bits)
    requires 0 < |burst| <= |poly| && poly[|poly| - 1]
    requires burst != Zeros(|burst|)
    ensures Feed(Zeros(|poly|), Zeros(lead) + (burst + Zeros(trail)), poly) != Zeros(|poly|)
  {
    var w := |poly|;
    var zero := Zeros(w);
    FeedZerosKeepsNonZero(zero, lead, poly);
    ZeroAfter(zero, burst, poly);
    assert burst == (burst + Zeros(w - |burst|))[..|burst|];
    assert zero[..|burst|] == Zeros(|burst|);
    FeedZerosKeepsNonZero(Feed(zero, burst, poly), trail, poly);
    FeedSplit(zero, Zeros(lead), burst + Zeros(trail), poly);
    FeedSplit(zero, burst, Zeros(trail), poly);
  }

  /** a and b agree outside the span positions start .. start + span. */
  predicate DifferWithin(a: Bits, b: Bits, start: nat, span: nat)
  {
    |a| == |b| && forall i | 0 <= i < |a| && !(start <= i < start + span) :: a[i] == b[i]
  }

  /** Two different messages that differ only within W consecutive bits never end in the
      same register, whatever their length and whatever the start value. */
  lemma DetectsBurst(reg: Bits, a: Bits, b: Bits, start: nat, poly: Bits)
    requires |reg| == |poly| > 0 && poly[|poly| - 1]
    requires DifferWithin(a, b, start, |poly|) && a != b
    ensures Feed(reg, a, poly) != Feed(reg, b, poly)
  {
    var stop := if start + |poly| <= |a| then start + |poly| else |a|;
    DifferenceIsBurst(a, b, start, stop);
    var burst := Xor(a, b)[start..stop];
    BurstLeavesNonZero(start, burst, |a| - stop, poly);
    SameRegister(reg, a, b, poly);
  }

  lemma DifferenceIsBurst(a: Bits, b: Bits, start: nat, stop: nat)
    requires |a| == |b| && stop <= |a|
    requires forall i | 0 <= i < |a| && !(start <= i < stop) :: a[i] == b[i]
    requires a != b
    ensures start < stop
    ensures Xor(a, b) == Zeros(start) + (Xor(a, b)[start..stop] + Zeros(|a| - stop))
    ensures Xor(a, b)[start..stop] != Zeros(stop - start)
  {
    var k :| 0 <= k < |a| && a[k] != b[k];
    assert Xor(a, b)[start..stop][k - start];
  }
}
