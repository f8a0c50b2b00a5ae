/**
 * The Camelot wheel as app.py lays it out: 24 codes "1A" .. "12B" in one
 * interleaved list, and the harmonic distance computed from positions in
 * that list.
 */
module Camelot {
  import opened Seqs

  /**
   * CAMELOT_ORDER: wheel number n sits at position 2(n-1) for ring A and
   * 2(n-1)+1 for ring B. Built from its layout; CamelotOrderListing shows it
   * is the literal 24-element list.
   */
  const CamelotOrder: seq<string> := Layout()

  /** The 24 codes in layout order. */
  function Layout(): (codes: seq<string>)
    ensures |codes| == 24
    ensures forall i :: 0 <= i < 24 ==> codes[i] == CodeAt(i)
  {
    seq(24, i requires 0 <= i < 24 => CodeAt(i))
  }

  /** Returned when either key is missing or not one of the 24 codes. */
  const MissingKeyPenalty: nat := 100

  /** Exactly the values `isin(CAMELOT_ORDER)` accepts. */
  predicate IsCamelotKey(key: string)
  {
    key in CamelotOrder
  }

  /** Decimal digit character for 0..9. */
  function Digit(d: nat): char
    requires d < 10
  {
    ('0' as int + d) as char
  }

  /** Decimal numeral of a wheel number, without leading zero. */
  function Numeral(n: nat): string
    requires 1 <= n <= 12
  {
    if n < 10 then [Digit(n)] else ['1', Digit(n - 10)]
  }

  /** Ring letter: 'A' at even positions of the list, 'B' at odd ones. */
  function Ring(i: nat): char
  {
    if i % 2 == 0 then 'A' else 'B'
  }

  /** The code the layout puts at position i. */
  function CodeAt(i: nat): string
    requires i < 24
  {
    Numeral(i / 2 + 1) + [Ring(i)]
  }

  /** The numerals of the twelve wheel numbers. */
  lemma NumeralListing()
    ensures Numeral(1) == "1" && Numeral(2) == "2" && Numeral(3) == "3" && Numeral(4) == "4"
    ensures Numeral(5) == "5" && Numeral(6) == "6" && Numeral(7) == "7" && Numeral(8) == "8"
    ensures Numeral(9) == "9" && Numeral(10) == "10" && Numeral(11) == "11" && Numeral(12) == "12"
  {
    assert Digit(0) == '0' && Digit(1) == '1' && Digit(2) == '2' && Digit(3) == '3' && Digit(4) == '4';
    assert Digit(5) == '5' && Digit(6) == '6' && Digit(7) == '7' && Digit(8) == '8' && Digit(9) == '9';
  }

  /** The list, written out. */
  lemma CamelotOrderListing()
    ensures CamelotOrder == [
      "1A", "1B", "2A", "2B", "3A", "3B", "4A", "4B",
      "5A", "5B", "6A", "6B", "7A", "7B", "8A", "8B",
      "9A", "9B", "10A", "10B", "11A", "11B", "12A", "12B"
    ]
  {
    var listing := [
      "1A", "1B", "2A", "2B", "3A", "3B", "4A", "4B",
      "5A", "5B", "6A", "6B", "7A", "7B", "8A", "8B",
      "9A", "9B", "10A", "10B", "11A", "11B", "12A", "12B"
    ];
    NumeralListing();
    forall i | 0 <= i < 24 ensures CamelotOrder[i] == listing[i] {
      assert CamelotOrder[i] == Numeral(i / 2 + 1) + [Ring(i)];
    }
  }

  /** Distinct wheel numbers have distinct numerals. */
  lemma NumeralInjective(m: nat, n: nat)
    requires 1 <= m <= 12 && 1 <= n <= 12
    requires Numeral(m) == Numeral(n)
    ensures m == n
  {
    if m < 10 && n < 10 {
      assert Numeral(m)[0] == Numeral(n)[0];
    } else if m >= 10 && n >= 10 {
      assert Numeral(m)[1] == Numeral(n)[1];
    }
  }

  /** The 24 codes are pairwise distinct. */
  lemma CamelotOrderNoDup()
    ensures NoDup(CamelotOrder)
  {
    forall i, j | 0 <= i < j < 24 ensures CamelotOrder[i] != CamelotOrder[j] {
      var ci, cj := CodeAt(i), CodeAt(j);
      if ci == cj {
        assert ci[..|ci| - 1] == Numeral(i / 2 + 1) && cj[..|cj| - 1] == Numeral(j / 2 + 1);
        NumeralInjective(i / 2 + 1, j / 2 + 1);
        assert false;
      }
    }
  }

  /** Position of a valid code in CAMELOT_ORDER (`CAMELOT_ORDER.index(key)`). */
  function Position(key: string): (i: nat)
    requires IsCamelotKey(key)
    ensures i < 24 && CamelotOrder[i] == key
  {
    IndexOf(CamelotOrder, key)
  }

  /** The number part `key[:-1]` of a code. */
  function NumberPart(key: string): string
    requires key != []
  {
    key[..|key| - 1]
  }

  /** The ring letter `key[-1]` of a code. */
  function Letter(key: string): char
    requires key != []
  {
    key[|key| - 1]
  }

  /** A valid code's number part and letter are read off its position. */
  lemma PositionParts(key: string)
    requires IsCamelotKey(key)
    ensures key == CodeAt(Position(key))
    ensures NumberPart(key) == Numeral(Position(key) / 2 + 1)
    ensures Letter(key) == Ring(Position(key))
  {
  }

  /**
   * get_camelot_distance: 100 for a missing or unknown key, 1 for the
   * relative major/minor pair, otherwise the distance between the two
   * positions in CAMELOT_ORDER with wrap-around past 12.
   */
  function CamelotDistance(key1: string, key2: string): (d: nat)
    ensures d == MissingKeyPenalty <==> !(IsCamelotKey(key1) && IsCamelotKey(key2))
    ensures IsCamelotKey(key1) && IsCamelotKey(key2) ==> d <= 12
  {
    if key1 == [] || key2 == [] || !IsCamelotKey(key1) || !IsCamelotKey(key2) then
      MissingKeyPenalty
    else
      var idx1 := Position(key1);
      var idx2 := Position(key2);
      var num1, let1 := NumberPart(key1), Letter(key1);
      var num2, let2 := NumberPart(key2), Letter(key2);
      if num1 == num2 && let1 != let2 then
        1
      else
        var diff := if idx1 >= idx2 then idx1 - idx2 else idx2 - idx1;
        if diff > 12 then 24 - diff else diff
  }

  /** Steps between positions i and j going the shorter way round a ring of 24. */
  function RingSteps(i: int, j: int): (n: nat)
    ensures n <= 12
  {
    var forward := (j - i) % 24;
    if forward <= 24 - forward then forward else 24 - forward
  }

  /** The shorter way round a ring of 24 is the index difference, folded past 12. */
  lemma RingStepsFolded(i: int, j: int)
    requires 0 <= i < 24 && 0 <= j < 24
    ensures RingSteps(i, j) == (var diff := if i >= j then i - j else j - i; if diff > 12 then 24 - diff else diff)
  {
    if i > j {
      assert (j - i) % 24 == 24 - (i - j);
    } else {
      assert (j - i) % 24 == j - i;
    }
  }

  /** Two codes with the same number part and different letters are neighbours in the list. */
  lemma RelativeKeysAdjacent(key1: string, key2: string)
    requires IsCamelotKey(key1) && IsCamelotKey(key2)
    requires NumberPart(key1) == NumberPart(key2) && Letter(key1) != Letter(key2)
    ensures Position(key1) - Position(key2) == 1 || Position(key2) - Position(key1) == 1
  {
    var i, j := Position(key1), Position(key2);
    PositionParts(key1);
    PositionParts(key2);
    NumeralInjective(i / 2 + 1, j / 2 + 1);
  }

  /**
   * For valid codes the distance is the number of steps between their
   * positions on a 24-position cycle; the relative-key branch agrees with it.
   */
  lemma DistanceIsRingSteps(key1: string, key2: string)
    requires IsCamelotKey(key1) && IsCamelotKey(key2)
    ensures CamelotDistance(key1, key2) == RingSteps(Position(key1), Position(key2))
  {
    RingStepsFolded(Position(key1), Position(key2));
    if NumberPart(key1) == NumberPart(key2) && Letter(key1) != Letter(key2) {
      RelativeKeysAdjacent(key1, key2);
    }
  }

  /** The distance does not depend on the direction of the transition. */
  lemma DistanceSymmetric(key1: string, key2: string)
    ensures CamelotDistance(key1, key2) == CamelotDistance(key2, key1)
  {
  }

  /** On the ring, zero steps means the same position. */
  lemma RingStepsZero(i: int, j: int)
    requires 0 <= i < 24 && 0 <= j < 24
    ensures RingSteps(i, j) == 0 <==> i == j
  {
    RingStepsFolded(i, j);
  }

  /** Ring steps obey the triangle inequality. */
  lemma RingStepsTriangle(i: int, j: int, k: int)
    requires 0 <= i < 24 && 0 <= j < 24 && 0 <= k < 24
    ensures RingSteps(i, k) <= RingSteps(i, j) + RingSteps(j, k)
  {
    RingStepsFolded(i, j);
    RingStepsFolded(j, k);
    RingStepsFolded(i, k);
  }

  /** Between valid codes the distance is 0 exactly for the same code. */
  lemma DistanceZeroIffSame(key1: string, key2: string)
    requires IsCamelotKey(key1) && IsCamelotKey(key2)
    ensures CamelotDistance(key1, key2) == 0 <==> key1 == key2
  {
    DistanceIsRingSteps(key1, key2);
    RingStepsZero(Position(key1), Position(key2));
  }

  /** Going through an intermediate key is never shorter than going direct. */
  lemma DistanceTriangle(key1: string, key2: string, key3: string)
    requires IsCamelotKey(key1) && IsCamelotKey(key2) && IsCamelotKey(key3)
    ensures CamelotDistance(key1, key3) <= CamelotDistance(key1, key2) + CamelotDistance(key2, key3)
  {
    DistanceIsRingSteps(key1, key2);
    DistanceIsRingSteps(key2, key3);
    DistanceIsRingSteps(key1, key3);
    RingStepsTriangle(Position(key1), Position(key2), Position(key3));
  }

  /** Every relative major/minor pair of the wheel is at distance 1, both ways. */
  lemma RelativeKeysAtOne(n: nat)
    requires 1 <= n <= 12
    ensures IsCamelotKey(Numeral(n) + "A") && IsCamelotKey(Numeral(n) + "B")
    ensures CamelotDistance(Numeral(n) + "A", Numeral(n) + "B") == 1
    ensures CamelotDistance(Numeral(n) + "B", Numeral(n) + "A") == 1
  {
    assert CodeAt(2 * (n - 1)) == Numeral(n) + "A";
    assert CodeAt(2 * (n - 1) + 1) == Numeral(n) + "B";
  }

  /** The position of a listed code is its place in the listing. */
  lemma PositionOf(i: nat)
    requires i < 24
    ensures IsCamelotKey(CamelotOrder[i]) && Position(CamelotOrder[i]) == i
  {
    CamelotOrderNoDup();
    IndexOfNoDup(CamelotOrder, i);
  }

  /** For listed codes the distance is the ring distance of their places in the listing. */
  lemma DistanceAt(i: nat, j: nat, key1: string, key2: string)
    requires i < 24 && j < 24
    requires CodeAt(i) == key1 && CodeAt(j) == key2
    ensures CamelotDistance(key1, key2) == RingSteps(i, j)
  {
    PositionOf(i);
    PositionOf(j);
    DistanceIsRingSteps(key1, key2);
  }

  /** The relative minor/major pair of wheel number 8 is one step apart. */
  lemma RelativeExample()
    ensures CamelotDistance("8A", "8B") == 1
  {
    NumeralListing();
    DistanceAt(14, 15, "8A", "8B");
  }

  /** Neighbouring wheel numbers on one ring are two places apart in the list. */
  lemma NeighbourExample()
    ensures CamelotDistance("8A", "9A") == 2
  {
    NumeralListing();
    DistanceAt(14, 16, "8A", "9A");
  }

  /** Opposite wheel numbers reach the largest distance, 12. */
  lemma OppositeExample()
    ensures CamelotDistance("1A", "7A") == 12
  {
    NumeralListing();
    DistanceAt(0, 12, "1A", "7A");
  }

  /** Going from 12 back to 1 on one ring wraps round the list. */
  lemma WrapExample()
    ensures CamelotDistance("12A", "1A") == 2
  {
    NumeralListing();
    DistanceAt(22, 0, "12A", "1A");
  }

  /** The last and first codes of the list count as neighbours. */
  lemma WrapAcrossRings()
    ensures CamelotDistance("12B", "1A") == 1
  {
    NumeralListing();
    DistanceAt(23, 0, "12B", "1A");
  }

  /** Wrapping works in the other direction too. */
  lemma WrapBackwards()
    ensures CamelotDistance("1B", "12A") == 3
  {
    NumeralListing();
    DistanceAt(1, 22, "1B", "12A");
  }

  /** Every code is two or three characters, ends in 'A' or 'B' and has no leading zero. */
  lemma CodeShape(key: string)
    requires IsCamelotKey(key)
    ensures 2 <= |key| <= 3 && key[0] != '0'
    ensures key[|key| - 1] == 'A' || key[|key| - 1] == 'B'
  {
    PositionParts(key);
  }

  /** Empty or non-wheel notations are penalised, even when they name a real key. */
  lemma PenaltyExamples()
    ensures CamelotDistance("", "1A") == MissingKeyPenalty
    ensures CamelotDistance("8A", "Am") == MissingKeyPenalty
    ensures CamelotDistance("08A", "8A") == MissingKeyPenalty
  {
    if IsCamelotKey("") {
      CodeShape("");
    }
    if IsCamelotKey("Am") {
      CodeShape("Am");
    }
    if IsCamelotKey("08A") {
      CodeShape("08A");
    }
  }
}
