/** The one's-complement checksum of RFC 1071 section 1, as the source computes it and as the RFC defines it. */
module Checksum {
  import opened Bytes

  function Padded(data: bytes): (r: bytes)
    ensures |r| % 2 == 0
  {
    if |data| % 2 == 1 then data + [0] else data
  }

  /** sum(struct.unpack("!nH", data)). */
  function WordSum(data: bytes): nat
    requires |data| % 2 == 0
  {
    if |data| == 0 then 0 else ReadU16Be(data, 0) + WordSum(data[2..])
  }

  /** The 16 bits left once the source has folded twice. */
  function FoldedTwice(total: nat): nat {
    var once := total / 0x1_0000 + total % 0x1_0000;
    (once + once / 0x1_0000) % 0x1_0000
  }

  function Sum16(data: bytes): nat {
    0xFFFF - FoldedTwice(WordSum(Padded(data)))
  }

  // ---------------------------------------------------------------- the definition of RFC 1071

  /** One's-complement addition: a carry out of the top comes back in at the bottom. */
  function EndAroundAdd(a: nat, b: nat): nat {
    if a + b > 0xFFFF then a + b - 0xFFFF else a + b
  }

  /** The sum of the 16-bit words of any data; an odd byte left over is the high half of a last word. */
  function OnesComplementSum(data: bytes): nat {
    if |data| == 0 then 0
    else if |data| == 1 then data[0] as int * 256
    else EndAroundAdd(data[0] as int * 256 + data[1], OnesComplementSum(data[2..]))
  }

  /** So a zero byte may stand for the missing half. */
  lemma {:induction false} PaddingIsNeutral(data: bytes)
    ensures OnesComplementSum(Padded(data)) == OnesComplementSum(data)
  {
    if |data| == 0 {
    } else if |data| == 1 {
      var padded := data + [0];
      assert padded[2..] == [] && OnesComplementSum(padded[2..]) == 0;
    } else {
      PaddingIsNeutral(data[2..]);
      assert Padded(data)[2..] == Padded(data[2..]);
    }
  }

  /** The one's-complement representative of a total: zero only for zero. */
  function Residue(total: nat): nat {
    if total == 0 then 0 else (total - 1) % 0xFFFF + 1
  }

  lemma ResidueIs(total: nat, r: nat)
    requires 0 < r <= 0xFFFF && total > 0 && (total - r) % 0xFFFF == 0
    ensures Residue(total) == r
  {
    var q := (total - r) / 0xFFFF;
    assert total - 1 == q * 0xFFFF + (r - 1);
  }

  lemma ResidueDiffers(total: nat)
    ensures total > 0 ==> 0 < Residue(total) <= 0xFFFF && (total - Residue(total)) % 0xFFFF == 0
  {
    if total > 0 {
      assert total - Residue(total) == (total - 1) / 0xFFFF * 0xFFFF;
    }
  }

  lemma {:induction false} OnesComplementIsResidue(data: bytes)
    requires |data| % 2 == 0
    ensures OnesComplementSum(data) == Residue(WordSum(data))
  {
    if |data| == 0 {
    } else {
      var word, rest := ReadU16Be(data, 0), WordSum(data[2..]);
      OnesComplementIsResidue(data[2..]);
      ResidueDiffers(rest);
      var sum := EndAroundAdd(word, Residue(rest));
      if word + rest > 0 {
        ResidueIs(word + rest, sum);
      }
    }
  }

  // ---------------------------------------------------------------- when two folds are enough

  /** The carry a third fold would still have to add back. */
  function LeftoverCarry(total: nat): nat {
    var once := total / 0x1_0000 + total % 0x1_0000;
    (once / 0x1_0000 + once % 0x1_0000) / 0x1_0000
  }

  lemma ResidueMatches(total: nat, r: nat, k: nat, carry: nat)
    requires total > 0 && r <= 0xFFFF && total == r + 0xFFFF * k + carry
    ensures r == Residue(total) <==> carry % 0xFFFF == 0 && r != 0
  {
    ResidueDiffers(total);
    assert (total - r) % 0xFFFF == carry % 0xFFFF;
    if r != 0 && carry % 0xFFFF == 0 {
      ResidueIs(total, r);
    }
  }

  /** The uncarried part and the kept part, as one linear equation about the total. */
  lemma FoldsSplit(total: nat)
    ensures var once := total / 0x1_0000 + total % 0x1_0000;
            && total == FoldedTwice(total) + 0xFFFF * (total / 0x1_0000 + once / 0x1_0000 + LeftoverCarry(total))
                  + LeftoverCarry(total)
            && (total > 0 && LeftoverCarry(total) == 0 ==> FoldedTwice(total) != 0)
  {
    var h, l := total / 0x1_0000, total % 0x1_0000;
    var once := h + l;
    var h1, l1 := once / 0x1_0000, once % 0x1_0000;
    var carry := LeftoverCarry(total);
    var r := (h1 + l1) % 0x1_0000;
    assert h1 + l1 == 0x1_0000 * carry + r;
    assert once + h1 == 0x1_0000 * (h1 + carry) + r;
    assert FoldedTwice(total) == r by {
      assert (0x1_0000 * (h1 + carry) + r) % 0x1_0000 == r;
    }
  }

  /**
   * Two folds give the one's-complement sum if and only if what they leave uncarried is itself a one's-complement
   * zero.
   */
  lemma TwoFoldsExactly(total: nat)
    ensures FoldedTwice(total) == Residue(total)
       <==> LeftoverCarry(total) % 0xFFFF == 0 && (LeftoverCarry(total) == 0 || FoldedTwice(total) != 0)
  {
    FoldsSplit(total);
    if total > 0 {
      var once := total / 0x1_0000 + total % 0x1_0000;
      var carry := LeftoverCarry(total);
      ResidueMatches(total, FoldedTwice(total), total / 0x1_0000 + once / 0x1_0000 + carry, carry);
    }
  }

  /** So they are enough for every total below 2^32 + 0xFFFF, and for that one they are not. */
  lemma TwoFoldsSuffice(total: nat)
    ensures total < 0x1_0000_FFFF ==> FoldedTwice(total) == Residue(total)
    ensures total == 0x1_0000_FFFF ==> FoldedTwice(total) != Residue(total)
  {
    TwoFoldsExactly(total);
  }

  lemma {:induction false} WordSumBound(data: bytes)
    requires |data| % 2 == 0
    ensures WordSum(data) <= 0xFFFF * (|data| / 2)
  {
    if |data| == 0 {
    } else {
      WordSumBound(data[2..]);
    }
  }

  /** More than any IP datagram with its pseudo-header can hold, and the most the source's folds allow. */
  const MAX_SUMMED := 131076

  /** Up to MAX_SUMMED bytes the source's checksum is the complement of the RFC's sum. */
  lemma ChecksumIsOnesComplement(data: bytes)
    requires |data| <= MAX_SUMMED
    ensures Sum16(data) == 0xFFFF - OnesComplementSum(data)
  {
    PaddingIsNeutral(data);
    WordSumBound(Padded(data));
    TwoFoldsSuffice(WordSum(Padded(data)));
    OnesComplementIsResidue(Padded(data));
  }

  /** The second fold before the cut to 16 bits drops its top. */
  function SecondFold(total: nat): nat {
    var once := total / 0x1_0000 + total % 0x1_0000;
    once / 0x1_0000 + once % 0x1_0000
  }

  /** Nothing is dropped, or what is dropped is a multiple of 0xFFFF and what stays is not zero. */
  predicate CutIsHarmless(total: nat) {
    var second := SecondFold(total);
    second < 0x1_0000 || (second / 0x1_0000 % 0xFFFF == 0 && second % 0x1_0000 != 0)
  }

  lemma CutDecides(total: nat)
    ensures FoldedTwice(total) == Residue(total) <==> CutIsHarmless(total)
    ensures total < 0x8000_0000_0000_0000 ==> (CutIsHarmless(total) <==> SecondFold(total) < 0x1_0000)
  {
    var once := total / 0x1_0000 + total % 0x1_0000;
    var second := SecondFold(total);
    assert LeftoverCarry(total) == second / 0x1_0000;
    assert once + once / 0x1_0000 == second + once / 0x1_0000 * 0x1_0000;
    assert FoldedTwice(total) == second % 0x1_0000;
    TwoFoldsExactly(total);
    hide FoldedTwice, LeftoverCarry, Residue;
    if total < 0x8000_0000_0000_0000 {
      assert once < 0x8000_0001_0000 && once / 0x1_0000 <= 0x8000_0000;
      assert second / 0x1_0000 < 0xFFFF;
    }
  }

  /**
   * For any data at all the checksum is the complement of the RFC's sum if and only if the second fold of its word sum
   * survives the cut to 16 bits; below 2^47 bytes that is to say, if and only if it fits them.
   */
  lemma ChecksumExactly(data: bytes)
    ensures Sum16(data) == 0xFFFF - OnesComplementSum(data) <==> CutIsHarmless(WordSum(Padded(data)))
    ensures |data| < 0x8000_0000_0000 ==>
              (CutIsHarmless(WordSum(Padded(data))) <==> SecondFold(WordSum(Padded(data))) < 0x1_0000)
  {
    PaddingIsNeutral(data);
    WordSumBound(Padded(data));
    OnesComplementIsResidue(Padded(data));
    CutDecides(WordSum(Padded(data)));
    hide CutIsHarmless, SecondFold;
  }

  function Ones(words: nat): bytes {
    seq(2 * words, _ => 0xFF)
  }

  lemma {:induction false} OnesThenOne(words: nat)
    ensures WordSum(Ones(words) + [0, 1]) == 0xFFFF * words + 1
  {
    var data := Ones(words) + [0, 1];
    if words == 0 {
      assert data[2..] == [];
    } else {
      OnesThenOne(words - 1);
      assert data[2..] == Ones(words - 1) + [0, 1];
    }
  }

  /** One word past the bound there is a buffer whose checksum is wrong. */
  lemma ChecksumBoundIsSharp()
    ensures var data := Ones(65538) + [0, 1];
            |data| == MAX_SUMMED + 2 && Sum16(data) != 0xFFFF - OnesComplementSum(data)
  {
    var data := Ones(65538) + [0, 1];
    OnesThenOne(65538);
    TwoFoldsSuffice(WordSum(data));
    OnesComplementIsResidue(data);
  }

  // ---------------------------------------------------------------- what a receiver checks

  function Place(data: bytes, at: nat, value: nat): bytes
    requires at + 2 <= |data|
  {
    data[..at] + U16Be(value) + data[at + 2..]
  }

  lemma {:induction false} PlacedSum(data: bytes, at: nat, value: nat)
    requires at % 2 == 0 && at + 2 <= |data| && |data| % 2 == 0 && IsU16(value)
    requires ReadU16Be(data, at) == 0
    ensures WordSum(Place(data, at, value)) == WordSum(data) + value
  {
    var placed := Place(data, at, value);
    if at == 0 {
      assert placed[2..] == data[2..];
      assert ReadU16Be(placed, 0) == value;
    } else {
      PlacedSum(data[2..], at - 2, value);
      assert placed[2..] == Place(data[2..], at - 2, value);
      assert ReadU16Be(placed, 0) == ReadU16Be(data, 0);
    }
  }

  lemma SumsToAllOnes(total: nat, value: nat)
    requires value <= 0xFFFF
    ensures var c := 0xFFFF - Residue(total);
            Residue(total + value) == 0xFFFF <==> value == c || (value == 0xFFFF && c == 0)
  {
    var r := Residue(total);
    ResidueDiffers(total);
    var q := (total - r) / 0xFFFF;
    if q > 0 {
      ResidueMatches(total + value, 0xFFFF, q - 1, r + value);
    } else if r + value >= 0xFFFF {
      ResidueMatches(total + value, 0xFFFF, 0, r + value - 0xFFFF);
    }
  }

  lemma PlacedChecks(data: bytes, at: nat, value: nat)
    requires |data| <= MAX_SUMMED - 2
    requires at % 2 == 0 && at + 2 <= |data| && ReadU16Be(data, at) == 0 && IsU16(value)
    ensures Sum16(Place(data, at, value)) == 0 <==> Residue(WordSum(Padded(data)) + value) == 0xFFFF
  {
    var padded := Padded(data);
    assert Padded(Place(data, at, value)) == Place(padded, at, value);
    assert |padded| <= MAX_SUMMED - 2 && ReadU16Be(padded, at) == 0;
    assert Sum16(Place(data, at, value)) == 0xFFFF - FoldedTwice(WordSum(Place(padded, at, value)));
    hide *;
    WordSumBound(padded);
    PlacedSum(padded, at, value);
    TwoFoldsSuffice(WordSum(padded) + value);
  }

  /**
   * A buffer with its checksum written into a zeroed even-offset field sums to zero, and no other value of the field
   * does, except that 0xFFFF may stand for 0.
   */
  lemma ReceiverAccepts(data: bytes, at: nat, value: nat)
    requires |data| <= MAX_SUMMED - 2
    requires at % 2 == 0 && at + 2 <= |data| && ReadU16Be(data, at) == 0 && IsU16(value)
    ensures Sum16(Place(data, at, Sum16(data))) == 0
    ensures Sum16(Place(data, at, value)) == 0 <==> value == Sum16(data) || (value == 0xFFFF && Sum16(data) == 0)
  {
    var total := WordSum(Padded(data));
    WordSumBound(Padded(data));
    TwoFoldsSuffice(total);
    PlacedChecks(data, at, Sum16(data));
    PlacedChecks(data, at, value);
    SumsToAllOnes(total, Sum16(data));
    SumsToAllOnes(total, value);
  }
}
