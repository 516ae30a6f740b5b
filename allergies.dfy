/** Allergies: an allergy score is a bit set, one bit per allergen. */
module Allergies {
  import opened Arith

  datatype Allergen = Eggs | Peanuts | Shellfish | Strawberries | Tomatoes | Chocolate | Pollen | Cats

  /** `ALL_ALLERGENS`, in declaration order. */
  const AllAllergens: seq<Allergen> :=
    [Eggs, Peanuts, Shellfish, Strawberries, Tomatoes, Chocolate, Pollen, Cats]

  /** The allergen's bit number: its position in declaration order. */
  function Index(a: Allergen): (k: nat)
    ensures k < 8 && AllAllergens[k] == a
  {
    match a
    case Eggs => 0
    case Peanuts => 1
    case Shellfish => 2
    case Strawberries => 3
    case Tomatoes => 4
    case Chocolate => 5
    case Pollen => 6
    case Cats => 7
  }

  /** `Allergen::score`: the discriminant `1 << k`. */
  function Score(a: Allergen): (r: nat)
    ensures r == Pow2(Index(a))
  {
    Pow2Table();
    match a
    case Eggs => 1
    case Peanuts => 2
    case Shellfish => 4
    case Strawberries => 8
    case Tomatoes => 16
    case Chocolate => 32
    case Pollen => 64
    case Cats => 128
  }

  lemma Pow2Table()
    ensures Pow2(0) == 1 && Pow2(1) == 2 && Pow2(2) == 4 && Pow2(3) == 8
    ensures Pow2(4) == 16 && Pow2(5) == 32 && Pow2(6) == 64 && Pow2(7) == 128
  {
    assert Pow2(4) == 16;
    assert Pow2(7) == 128;
  }

  /** The allergen scores are distinct powers of two between 1 and 128. */
  lemma ScoresDistinct(a: Allergen, b: Allergen)
    ensures 1 <= Score(a) <= 128
    ensures a != b ==> Score(a) != Score(b)
  {
  }

  /** Bit k of n. */
  predicate Bit(n: nat, k: nat) {
    (n / Pow2(k)) % 2 == 1
  }

  /** `score & allergen.score() != 0`, with the one-bit mask written as arithmetic. */
  predicate IsAllergicTo(score: nat, a: Allergen) {
    (score / Score(a)) % 2 == 1
  }

  /** The allergens of `AllAllergens[from..]` that the score has. */
  function AllergiesFrom(score: nat, from: nat): (r: seq<Allergen>)
    requires from <= 8
    ensures forall a :: a in r <==> Index(a) >= from && IsAllergicTo(score, a)
    ensures forall i, j :: 0 <= i < j < |r| ==> Index(r[i]) < Index(r[j])
    decreases 8 - from
  {
    if from == 8 then []
    else
      var rest := AllergiesFrom(score, from + 1);
      var a := AllAllergens[from];
      assert forall b :: b == a <==> Index(b) == from by {
        IndexOf(from);
      }
      if IsAllergicTo(score, a) then [a] + rest else rest
  }

  /** `Index` inverts the position in `AllAllergens`. */
  lemma IndexOf(k: nat)
    requires k < 8
    ensures Index(AllAllergens[k]) == k
  {
  }

  /** `Allergies::allergies`: exactly the allergens whose bit is set, in declaration order. */
  function AllergyList(score: nat): (r: seq<Allergen>)
    ensures forall a :: a in r <==> IsAllergicTo(score, a)
    ensures forall i, j :: 0 <= i < j < |r| ==> Index(r[i]) < Index(r[j])
  {
    AllergiesFrom(score, 0)
  }

  /** `is_allergic_to` tests bit number `Index(a)` of the score. */
  lemma AllergicIsBit(score: nat, a: Allergen)
    ensures IsAllergicTo(score, a) <==> Bit(score, Index(a))
  {
  }

  /** Only the low eight bits matter: s and s mod 256 give the same allergies. */
  lemma HighBitsIgnored(score: nat)
    ensures AllergyList(score) == AllergyList(score % 256)
  {
    forall a: Allergen ensures IsAllergicTo(score, a) <==> IsAllergicTo(score % 256, a) {
      LowBit(score / 256, score % 256, a);
    }
    SameListFrom(score, score % 256, 0);
  }

  lemma LowBit(q: nat, r: nat, a: Allergen)
    requires r < 256
    ensures IsAllergicTo(256 * q + r, a) <==> IsAllergicTo(r, a)
  {
    Pow2Table();
    var p := Score(a);
    var k := 256 / p;
    assert p * k == 256;
    Shift(q, r, p, k);
  }

  lemma Shift(q: nat, r: nat, p: nat, k: nat)
    requires p > 0 && p * k == 256 && k % 2 == 0
    ensures ((256 * q + r) / p) % 2 == (r / p) % 2
  {
    var half, low := (k / 2) * q, r / p;
    assert k * q == 2 * half by {
      MulAssoc(2, k / 2, q);
    }
    assert 256 * q + r == p * (k * q + low) + r % p by {
      MulAssoc(p, k, q);
      Distrib(p, k * q, low);
    }
    DivUnique(256 * q + r, p, k * q + low, r % p);
    assert (2 * half + low) % 2 == low % 2 by {
      EvenShift(half, low);
    }
  }

  lemma EvenShift(h: nat, l: nat)
    ensures (2 * h + l) % 2 == l % 2
  {
    DivUnique(2 * h + l, 2, h + l / 2, l % 2);
  }

  lemma Distrib(p: nat, a: nat, b: nat)
    ensures p * (a + b) == p * a + p * b
  {
  }

  lemma {:induction false} SameListFrom(s: nat, t: nat, from: nat)
    requires from <= 8
    requires forall a: Allergen :: IsAllergicTo(s, a) <==> IsAllergicTo(t, a)
    ensures AllergiesFrom(s, from) == AllergiesFrom(t, from)
    decreases 8 - from
  {
    if from < 8 {
      SameListFrom(s, t, from + 1);
    }
  }

  /** A score of 0 means no allergies. */
  lemma ZeroScore()
    ensures AllergyList(0) == []
  {
  }
}
