/** BloomFilter: a bit array that holds the union of the positions of the added hashes. */
module BloomFilters {
  import opened Sequences

  const HASH_SIZE: nat := 28
  type Hash = h: seq<byte> | |h| == HASH_SIZE witness seq(HASH_SIZE, i => 0)

  function Pow2(n: nat): (r: nat)
    ensures r > 0
  {
    if n == 0 then 1 else 2 * Pow2(n - 1)
  }

  // ----- positions -----

  /** The four bytes at b, least significant first. */
  function Word(h: Hash, b: nat): nat
    requires b + 4 <= HASH_SIZE
  {
    h[b] as nat + 0x100 * h[b + 1] as nat + 0x1_0000 * h[b + 2] as nat + 0x100_0000 * h[b + 3] as nat
  }

  /** The word read for position i is inside the hash. */
  predicate OffsetOk(w: nat, i: nat) {
    i * w / 8 + 4 <= HASH_SIZE
  }

  /** The shift for position i is not negative. */
  predicate ShiftOk(w: nat, i: nat) {
    w + i * w % 8 <= 32
  }

  /** A byte of the array holds eight positions, m is an int, and every position can be read. */
  predicate InRange(w: nat, k: nat) {
    3 <= w <= 30 && forall i :: 0 <= i < k ==> OffsetOk(w, i) && ShiftOk(w, i)
  }

  function PositionOf(h: Hash, w: nat, i: nat): (p: nat)
    requires OffsetOk(w, i) && ShiftOk(w, i)
    ensures p < Pow2(w)
  {
    Word(h, i * w / 8) / Pow2(32 - w - i * w % 8) % Pow2(w)
  }

  function Positions(h: Hash, w: nat, k: nat): set<nat>
    requires InRange(w, k)
  {
    set i | 0 <= i < k :: PositionOf(h, w, i)
  }

  function Union(hashes: set<Hash>, w: nat, k: nat): set<nat>
    requires InRange(w, k)
  {
    set h, p | h in hashes && p in Positions(h, w, k) :: p
  }

  // ----- bits -----

  /** 1 << i */
  function Mask(i: nat): bv8 {
    match i
    case 0 => 1
    case 1 => 2
    case 2 => 4
    case 3 => 8
    case 4 => 16
    case 5 => 32
    case 6 => 64
    case _ => 128
  }

  predicate Bit(x: bv8, i: nat) {
    x & Mask(i) != 0
  }

  lemma SetBit(x: bv8, i: nat, j: nat)
    requires i < 8 && j < 8
    ensures Bit(x | Mask(i), j) <==> i == j || Bit(x, j)
  {
  }

  lemma NoBit(i: nat)
    ensures !Bit(0, i)
  {
  }

  lemma NextPosition(h: Hash, w: nat, i: nat)
    requires InRange(w, i + 1)
    ensures Positions(h, w, i + 1) == Positions(h, w, i) + {PositionOf(h, w, i)}
  {
  }

  lemma UnionAdds(hashes: set<Hash>, h: Hash, w: nat, k: nat)
    requires InRange(w, k)
    ensures Union(hashes + {h}, w, k) == Union(hashes, w, k) + Positions(h, w, k)
  {
  }

  /** Eight positions in each byte of the array. */
  lemma InArray(p: nat, w: nat)
    requires 3 <= w && p < Pow2(w)
    ensures p / 8 < Pow2(w) / 8
  {
    assert Pow2(w) == 2 * Pow2(w - 1) == 4 * Pow2(w - 2) == 8 * Pow2(w - 3);
  }

  lemma PositionsIff(h: Hash, w: nat, k: nat, p: nat)
    requires InRange(w, k)
    ensures p in Positions(h, w, k) <==> exists i :: 0 <= i < k && p == PositionOf(h, w, i)
  {
  }

  class BloomFilter {
    const w: nat
    const m: nat
    const k: nat
    const bitArray: array<bv8>
    ghost var added: set<Hash>
    ghost var taken: set<nat>

    ghost predicate Sized() {
      InRange(w, k) && m == Pow2(w) && bitArray.Length == m / 8
    }

    ghost predicate Has(p: nat)
      reads bitArray
    {
      p / 8 < bitArray.Length && Bit(bitArray[p / 8], p % 8)
    }

    /** The bits that are set are those of the positions taken. */
    ghost predicate Exact()
      reads this`taken, bitArray
    {
      forall p: nat :: Has(p) <==> p in taken
    }

    ghost predicate Valid()
      reads this, bitArray
    {
      Sized() && Exact() && taken == Union(added, w, k)
    }

    constructor (w: nat, k: nat)
      requires InRange(w, k)
      ensures Valid() && added == {} && fresh(bitArray)
      ensures this.w == w && this.k == k
    {
      this.w, this.k := w, k;
      m := Pow2(w);
      bitArray := new bv8[Pow2(w) / 8](_ => 0);
      added, taken := {}, {};
      new;
      forall p: nat ensures !Has(p) { NoBit(p % 8); }
    }

    lemma Ready(i: nat)
      requires Sized() && i <= k
      ensures InRange(w, i) && (i < k ==> InRange(w, i + 1))
    {
    }

    method Position(h: Hash, i: nat) returns (p: nat)
      requires Sized() && i < k
      ensures p == PositionOf(h, w, i) && p < m && p / 8 < bitArray.Length
    {
      var pPos := i * w;
      assert OffsetOk(w, i) && ShiftOk(w, i);
      p := Word(h, pPos / 8) / Pow2(32 - w - pPos % 8) % Pow2(w);
      InArray(p, w);
    }

    method SetBitAt(p: nat)
      requires p / 8 < bitArray.Length && Exact()
      modifies this`taken, bitArray
      ensures Exact() && taken == old(taken) + {p}
    {
      bitArray[p / 8] := bitArray[p / 8] | Mask(p % 8);
      taken := taken + {p};
      forall q: nat ensures Has(q) <==> old(Has(q)) || q == p {
        SetBit(old(bitArray[p / 8]), p % 8, q % 8);
      }
    }

    method AddPosition(h: Hash, i: nat)
      requires Sized() && Exact() && i < k
      modifies this`taken, bitArray
      ensures Exact() && InRange(w, i) && InRange(w, i + 1)
      ensures Positions(h, w, i + 1) == Positions(h, w, i) + {PositionOf(h, w, i)}
      ensures taken == old(taken) + {PositionOf(h, w, i)}
    {
      Ready(i);
      NextPosition(h, w, i);
      var p := Position(h, i);
      SetBitAt(p);
    }

    method Add(h: Hash)
      requires Valid()
      modifies this`added, this`taken, bitArray
      ensures Valid() && added == old(added) + {h}
      ensures forall p: nat :: p in taken <==> p in old(taken) || exists i :: 0 <= i < k && p == PositionOf(h, w, i)
    {
      added := added + {h};
      UnionAdds(old(added), h, w, k);
      Ready(0);
      for i := 0 to k
        invariant InRange(w, i) && added == old(added) + {h}
        invariant Exact() && taken == old(taken) + Positions(h, w, i)
      {
        AddPosition(h, i);
      }
    }

    /** False only for hashes that were not added; true exactly when every position is taken. */
    method Test(h: Hash) returns (r: bool)
      requires Valid()
      ensures r <==> forall i :: 0 <= i < k ==> PositionOf(h, w, i) in taken
      ensures h in added ==> r
    {
      assert h in added ==> Positions(h, w, k) <= Union(added, w, k);
      for i := 0 to k
        invariant Positions(h, w, i) <= Union(added, w, k)
      {
        var p := Position(h, i);
        NextPosition(h, w, i);
        if bitArray[p / 8] & Mask(p % 8) == 0 {
          assert !Has(p) && p in Positions(h, w, k);
          return false;
        }
        assert Has(p);
      }
      return true;
    }

    /** A position is taken when it is one of those of an added hash. */
    lemma TakenIff(p: nat)
      requires Valid()
      ensures p in taken <==> exists g :: g in added && p in Positions(g, w, k)
    {
    }

    method Reset()
      requires Valid()
      modifies this`added, this`taken, bitArray
      ensures Valid() && added == {} && taken == {}
    {
      for i := 0 to bitArray.Length
        invariant forall j :: 0 <= j < i ==> bitArray[j] == 0
      {
        bitArray[i] := 0;
      }
      added, taken := {}, {};
      forall p: nat ensures !Has(p) { NoBit(p % 8); }
    }
  }

  // ----- which parameters are in range -----

  lemma DefaultsInRange()
    ensures InRange(20, 7)
  {
  }

  lemma Earlier(w: nat, i: nat, j: nat)
    requires i <= j
    ensures i * w <= j * w
  {
  }

  /** How many positions leave the shift not negative: any number up to 26 bits and for 28. */
  predicate ShiftsOk(w: nat, k: nat) {
    w <= 26 || w == 28 || (w == 27 && k <= 2) || k <= 1
  }

  /** The last position begins in the last four bytes of the hash or before. */
  predicate OffsetsOk(w: nat, k: nat) {
    k == 0 || (k - 1) * w < 8 * (HASH_SIZE - 3)
  }

  lemma OffsetsIff(w: nat, k: nat)
    ensures OffsetsOk(w, k) <==> forall i :: 0 <= i < k ==> OffsetOk(w, i)
  {
    if OffsetsOk(w, k) {
      forall i: nat | i < k ensures OffsetOk(w, i) { Earlier(w, i, k - 1); }
    }
    if k > 0 && forall i :: 0 <= i < k ==> OffsetOk(w, i) {
      assert OffsetOk(w, k - 1);
    }
  }

  lemma EvenResidue(x: nat)
    ensures 2 * x % 8 <= 6 && 4 * x % 8 <= 4
  {
    assert 2 * x == 8 * (x / 4) + 2 * (x % 4);
    assert 4 * x == 8 * (x / 2) + 4 * (x % 2);
  }

  /** The residues of the multiples of the widths that matter. */
  lemma EvenShift(w: nat, i: nat)
    requires w <= 26 || w == 28
    ensures ShiftOk(w, i)
  {
    if w == 26 {
      EvenResidue(13 * i);
    } else if w == 28 {
      EvenResidue(7 * i);
    }
  }

  lemma FirstShifts(w: nat)
    requires w <= 30
    ensures ShiftOk(w, 0)
    ensures ShiftOk(w, 1) <==> w <= 28
    ensures w == 27 ==> !ShiftOk(w, 2)
  {
    assert 1 * w == w && 0 * w == 0;
  }

  lemma ShiftsIff(w: nat, k: nat)
    requires w <= 30
    ensures ShiftsOk(w, k) <==> forall i :: 0 <= i < k ==> ShiftOk(w, i)
  {
    FirstShifts(w);
    if w <= 26 || w == 28 {
      forall i: nat | i < k ensures ShiftOk(w, i) { EvenShift(w, i); }
    } else if ShiftsOk(w, k) {
      forall i: nat | i < k ensures ShiftOk(w, i) { assert i == 0 || (i == 1 && w == 27); }
    } else {
      assert 0 < k && !ShiftOk(w, if w == 27 then 2 else 1);
    }
  }

  /** The parameters for which every position can be read. */
  lemma InRangeIff(w: nat, k: nat)
    requires 3 <= w <= 30
    ensures (forall i :: 0 <= i < k ==> OffsetOk(w, i) && ShiftOk(w, i)) <==>
            (k == 0 || (k - 1) * w < 200) && (w <= 26 || w == 28 || (w == 27 && k <= 2) || k <= 1)
  {
    OffsetsIff(w, k);
    ShiftsIff(w, k);
  }

  /** The documented bound, w * k at most the bits of the hash, lets a position outside through,
      and one with a negative shift. */
  lemma DocumentedBoundIsTooLarge()
    ensures 20 * 11 <= 8 * HASH_SIZE && !OffsetOk(20, 10) && !InRange(20, 11)
    ensures 29 * 2 <= 8 * HASH_SIZE && !ShiftOk(29, 1) && !InRange(29, 2)
  {
    InRangeIff(20, 11);
    InRangeIff(29, 2);
  }

  lemma Powers()
    ensures Pow2(8) == 0x100 && Pow2(12) == 0x1000 && Pow2(20) == 0x10_0000
  {
  }

  lemma FirstPosition(h: Hash)
    ensures PositionOf(h, 20, 0) / 0x1000 == h[3] as nat
  {
    Powers();
    var x := Word(h, 0);
    assert x / 0x1000 < 0x10_0000;
    assert x / 0x1000 / 0x1000 == h[3] as nat;
  }

  lemma Bytes(a: nat, b: nat, c: nat, d: nat)
    requires a < 0x100 && b < 0x100
    ensures (a + 0x100 * b + 0x1_0000 * c + 0x100_0000 * d) / 0x100 % 0x10_0000 % 0x100 == b
  {
    var x := b + 0x100 * (c + 0x100 * d);
    assert (a + 0x100 * x) / 0x100 == x;
    assert x % 0x10_0000 == x - 0x100 * (0x1000 * (x / 0x10_0000));
    var y := c + 0x100 * d - 0x1000 * (x / 0x10_0000);
    assert x % 0x10_0000 == b + 0x100 * y;
  }

  lemma SecondPosition(h: Hash)
    ensures PositionOf(h, 20, 1) % 0x100 == h[3] as nat
  {
    Powers();
    var x := Word(h, 2);
    assert 1 * 20 / 8 == 2 && 1 * 20 % 8 == 4;
    assert PositionOf(h, 20, 1) == x / 0x100 % 0x10_0000;
    Bytes(h[2] as nat, h[3] as nat, h[4] as nat, h[5] as nat);
  }

  /** With the default width the first two positions are not independent: they share a byte of the hash. */
  lemma PositionsShareAByte(h: Hash)
    ensures PositionOf(h, 20, 0) / 0x1000 == h[3] as nat == PositionOf(h, 20, 1) % 0x100
  {
    FirstPosition(h);
    SecondPosition(h);
  }

  // ----- the bits of a position -----

  function BitOf(x: nat, b: nat): nat {
    if b == 0 then x % 2 else BitOf(x / 2, b - 1)
  }

  /** Bit n of the hash, counted from the least significant bit of its first byte. */
  function HashBit(h: Hash, n: nat): nat
    requires n < 8 * HASH_SIZE
  {
    BitOf(h[n / 8] as nat, n % 8)
  }

  /** The first of the bits that make up position i. */
  function FirstBit(w: nat, i: nat): nat
    requires OffsetOk(w, i) && ShiftOk(w, i)
  {
    8 * (i * w / 8) + (32 - w - i * w % 8)
  }

  function Shr(x: nat, n: nat): nat {
    if n == 0 then x else Shr(x / 2, n - 1)
  }

  function Low(x: nat, n: nat): nat {
    if n == 0 then 0 else x % 2 + 2 * Low(x / 2, n - 1)
  }

  lemma Scale(a: nat, b: nat, d: nat)
    requires a <= b
    ensures a * d <= b * d
  {
  }

  lemma Divided(x: nat, d: nat, q: nat, r: nat)
    requires x == q * d + r && r < d
    ensures x / d == q && x % d == r
  {
    var e := x / d;
    assert x == e * d + x % d;
    if e < q { Scale(e + 1, q, d); }
    if e > q { Scale(q + 1, e, d); }
  }

  /** Dividing by 2p is halving and dividing by p. */
  lemma Halves(x: nat, p: nat)
    requires p > 0
    ensures x / (2 * p) == x / 2 / p && x % (2 * p) == x % 2 + 2 * (x / 2 % p)
  {
    var y := x / 2;
    var k, m := y / p, y % p;
    assert y == k * p + m;
    assert k * (2 * p) == 2 * (k * p);
    Divided(x, 2 * p, k, x % 2 + 2 * m);
  }

  lemma {:induction false} ShrIs(x: nat, n: nat)
    ensures x / Pow2(n) == Shr(x, n)
  {
    if n == 0 {
    } else {
      ShrIs(x / 2, n - 1);
      Halves(x, Pow2(n - 1));
    }
  }

  lemma {:induction false} LowIs(x: nat, n: nat)
    ensures x % Pow2(n) == Low(x, n)
  {
    if n == 0 {
    } else {
      LowIs(x / 2, n - 1);
      Halves(x, Pow2(n - 1));
    }
  }

  lemma {:induction false} BitOfShr(x: nat, n: nat, b: nat)
    ensures BitOf(Shr(x, n), b) == BitOf(x, n + b)
  {
    if n == 0 {
    } else {
      BitOfShr(x / 2, n - 1, b);
    }
  }

  lemma {:induction false} BitOfLow(x: nat, n: nat, b: nat)
    requires b < n
    ensures BitOf(Low(x, n), b) == BitOf(x, b)
  {
    if b == 0 {
    } else {
      BitOfLow(x / 2, n - 1, b - 1);
    }
  }

  /** The lowest n bits, and what is above them. */
  lemma BitOfSum(low: nat, high: nat, n: nat, j: nat)
    requires low < Pow2(n)
    ensures BitOf(low + Pow2(n) * high, j) == if j < n then BitOf(low, j) else BitOf(high, j - n)
  {
    var x := low + Pow2(n) * high;
    Divided(x, Pow2(n), high, low);
    if j < n {
      LowIs(x, n);
      BitOfLow(x, n, j);
    } else {
      ShrIs(x, n);
      BitOfShr(x, n, j - n);
    }
  }

  lemma ByteBit(byte: nat, rest: nat, j: nat)
    requires byte < 0x100
    ensures BitOf(byte + 0x100 * rest, j) == if j < 8 then BitOf(byte, j) else BitOf(rest, j - 8)
  {
    Powers();
    BitOfSum(byte, rest, 8, j);
  }

  /** The bits of the word are those of its bytes. */
  lemma WordBit(h: Hash, q: nat, j: nat)
    requires q + 4 <= HASH_SIZE && j < 32
    ensures BitOf(Word(h, q), j) == HashBit(h, 8 * q + j)
  {
    var b0, b1, b2, b3 := h[q] as nat, h[q + 1] as nat, h[q + 2] as nat, h[q + 3] as nat;
    ByteBit(b0, b1 + 0x100 * (b2 + 0x100 * b3), j);
    if j >= 8 { ByteBit(b1, b2 + 0x100 * b3, j - 8); }
    if j >= 16 { ByteBit(b2, b3, j - 16); }
  }

  /** Bits shift to shift + w of the word at q. */
  lemma FieldBits(h: Hash, q: nat, shift: nat, w: nat, b: nat)
    requires q + 4 <= HASH_SIZE && shift + w <= 32 && b < w
    ensures BitOf(Word(h, q) / Pow2(shift) % Pow2(w), b) == HashBit(h, 8 * q + shift + b)
  {
    var x := Word(h, q);
    ShrIs(x, shift);
    LowIs(Shr(x, shift), w);
    BitOfLow(Shr(x, shift), w, b);
    BitOfShr(x, shift, b);
    WordBit(h, q, shift + b);
  }

  /** A position is made of w bits in a row of the hash. */
  lemma PositionBits(h: Hash, w: nat, i: nat, b: nat)
    requires OffsetOk(w, i) && ShiftOk(w, i) && b < w
    ensures FirstBit(w, i) + b < 8 * HASH_SIZE
    ensures FirstBit(w, i) == 8 * (i * w / 8) + (32 - w - i * w % 8)
    ensures BitOf(PositionOf(h, w, i), b) == HashBit(h, FirstBit(w, i) + b)
  {
    FieldBits(h, i * w / 8, 32 - w - i * w % 8, w, b);
  }
}
