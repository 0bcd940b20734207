/** The varint reader of Common::ProtoHelper ("Base 128 Varints" of the Protocol Buffers
    Encoding specification).  A pointer is a position in the buffer; the by-reference pointer
    of the source is returned.  Unsigned arithmetic wraps at `m`, which is 2^32 or 2^64. */
module ProtoHelper {

  import opened Sequences

  const U32: nat := 0x1_0000_0000
  const U64: nat := 0x1_0000_0000_0000_0000

  // ----- the encoding -----

  /** One to ten groups of seven bits at p; every byte but the last has its top bit set. */
  predicate VarintAt(buf: seq<byte>, p: nat, n: nat) {
    && 1 <= n <= 10 && p + n <= |buf|
    && buf[p + n - 1] < 128
    && forall i :: p <= i < p + n - 1 ==> buf[i] >= 128
  }

  /** The groups in base 128, least significant first. */
  function Val(bs: seq<byte>): nat {
    if bs == [] then 0 else bs[0] % 128 + 128 * Val(bs[1..])
  }

  function Pow(i: nat): (r: nat)
    ensures r > 0
  {
    if i == 0 then 1 else 128 * Pow(i - 1)
  }

  lemma TimesLeft(a: int, b: int, c: int)
    ensures a * (b * c) == b * (a * c)
  {
  }

  lemma {:induction false} ValSnoc(bs: seq<byte>, b: byte)
    ensures Val(bs + [b]) == Val(bs) + (b % 128) * Pow(|bs|)
  {
    if bs == [] {
      assert ([] + [b])[1..] == [];
    } else {
      ValSnoc(bs[1..], b);
      assert (bs + [b])[1..] == bs[1..] + [b];
      TimesLeft(128, b % 128, Pow(|bs| - 1));
    }
  }

  /** The canonical encoding. */
  function Encode(v: nat): (bs: seq<byte>)
    ensures bs != []
  {
    if v < 128 then [v] else [v % 128 + 128] + Encode(v / 128)
  }

  lemma FewerGroups(v: nat, n: nat)
    requires 128 <= v < Pow(n)
    ensures n >= 2 && v / 128 < Pow(n - 1)
  {
    assert Pow(0) == 1 && Pow(1) == 128;
  }

  lemma MoreGroups(v: nat)
    requires v >= 128 && VarintAt(Encode(v / 128), 0, |Encode(v / 128)|) && |Encode(v / 128)| <= 9
    requires Val(Encode(v / 128)) == v / 128
    ensures VarintAt(Encode(v), 0, |Encode(v)|) && |Encode(v)| == |Encode(v / 128)| + 1 && Val(Encode(v)) == v
  {
    assert Encode(v)[1..] == Encode(v / 128);
  }

  lemma {:induction false} EncodeIsVarint(v: nat, n: nat)
    requires v < Pow(n) && n <= 10
    ensures VarintAt(Encode(v), 0, |Encode(v)|) && |Encode(v)| <= if n == 0 then 1 else n
    ensures Val(Encode(v)) == v
  {
    if v >= 128 {
      FewerGroups(v, n);
      EncodeIsVarint(v / 128, n - 1);
      MoreGroups(v);
    }
  }

  // ----- wrap-around -----

  lemma AtLeastOnce(d: int, m: nat)
    requires d >= 1
    ensures d * m >= m && -d * m == -(d * m)
  {
  }

  lemma ModUnique(a: int, m: nat, q: int, r: nat)
    requires m > 0 && a == q * m + r && r < m
    ensures a % m == r
  {
    var d := q - a / m;
    assert d * m == a % m - r;
    if d >= 1 {
      AtLeastOnce(d, m);
    } else if d <= -1 {
      AtLeastOnce(-d, m);
    }
  }

  lemma ModSame(a: int, b: int, m: nat, k: int)
    requires m > 0 && a == b + k * m
    ensures a % m == b % m
  {
    assert a == (b / m + k) * m + b % m;
    ModUnique(a, m, b / m + k, b % m);
  }

  /** What (x << s) and res + ... compute in unsigned arithmetic, `pw` being 2^s. */
  function ShiftAdd(res: nat, x: int, pw: nat, m: nat): nat
    requires m > 0
  {
    (res + ((x % m) * pw) % m) % m
  }

  lemma Spread(q: int, m: int, r: int, p: int)
    ensures (q * m + r) * p == (q * p) * m + r * p
  {
  }

  lemma Gather(a: int, b: int, c: int, m: int)
    ensures (a + b + c) * m == a * m + b * m + c * m
  {
  }

  lemma ShiftAddIs(res: nat, e: int, x: int, pw: nat, m: nat)
    requires m > 0 && res == e % m
    ensures ShiftAdd(res, x, pw, m) == (e + x * pw) % m
  {
    var y := (x % m) * pw;
    assert x == (x / m) * m + x % m;
    assert x * pw == ((x / m) * pw) * m + y by {
      Spread(x / m, m, x % m, pw);
    }
    assert e + x * pw == (res + y % m) + (e / m + (x / m) * pw + y / m) * m by {
      assert y == (y / m) * m + y % m;
      assert e == (e / m) * m + res;
      Gather(e / m, (x / m) * pw, y / m, m);
    }
    ModSame(e + x * pw, res + y % m, m, e / m + (x / m) * pw + y / m);
  }

  // ----- the running sum -----

  /** The exact sum after the bytes bs: their value, and the continuation bit of the last byte,
      which the next step takes off again. */
  function Running(bs: seq<byte>): nat
    requires bs != []
  {
    Val(bs) + (if bs[|bs| - 1] >= 128 then Pow(|bs|) else 0)
  }

  lemma Sum(a: int, b: int, c: int)
    ensures (a + b) * c == a * c + b * c
  {
  }

  lemma TakeOff(b: byte, pw: nat)
    ensures (b % 128) * pw + (if b >= 128 then 128 * pw else 0) == pw + (b as int - 1) * pw
  {
    var x: int := b;
    Sum(x - 1, 1, pw);
    if x >= 128 {
      assert x % 128 == x - 128;
      Sum(x - 128, 128, pw);
    }
  }

  /** Adding (byte - 1) << 7*i takes the previous continuation bit off and adds the new group. */
  lemma RunningStep(bs: seq<byte>, b: byte)
    requires bs != [] && bs[|bs| - 1] >= 128
    ensures Running(bs + [b]) == Running(bs) + (b as int - 1) * Pow(|bs|)
  {
    ValSnoc(bs, b);
    assert |bs + [b]| == |bs| + 1;
    TakeOff(b, Pow(|bs|));
  }

  // ----- the readers -----

  /** A varint starts at p, or ten bytes are there to be looked at. */
  predicate Readable(buf: seq<byte>, p: nat) {
    p + 10 <= |buf| || exists n :: 1 <= n <= 10 && VarintAt(buf, p, n)
  }

  /** Ten bytes in a row have their top bit set. */
  predicate Endless(buf: seq<byte>, p: nat) {
    p + 10 <= |buf| && forall i :: p <= i < p + 10 ==> buf[i] >= 128
  }

  lemma MoreBytes(buf: seq<byte>, p: nat, i: nat)
    requires Readable(buf, p) && i < 10 && p + i <= |buf| && forall j :: p <= j < p + i ==> buf[j] >= 128
    ensures p + i < |buf|
  {
  }

  /** Where a varint ends is determined by its bytes. */
  lemma Terminated(buf: seq<byte>, p: nat, n: nat)
    requires VarintAt(buf, p, n)
    ensures forall k :: VarintAt(buf, p, k) ==> k == n
    ensures !Endless(buf, p)
  {
    forall k | VarintAt(buf, p, k) ensures k == n {
      assert buf[p + k - 1] < 128 && buf[p + n - 1] < 128;
    }
    assert buf[p + n - 1] < 128;
  }

  /** A field at p: its tag byte, then a varint of n bytes. */
  predicate UIntAt(buf: seq<byte>, p: nat, n: nat) {
    VarintAt(buf, p + 1, n)
  }

  function UIntValue(buf: seq<byte>, p: nat, n: nat): nat
    requires UIntAt(buf, p, n)
  {
    Val(buf[p + 1..p + 1 + n])
  }

  lemma OneByte(b: byte)
    ensures Val([b]) == b % 128 && Running([b]) == b
  {
    assert [b][1..] == [];
    assert Pow(1) == 128 * Pow(0) == 128;
  }

  /** One pass of a loop over the groups. */
  lemma NextGroup(buf: seq<byte>, s: nat, i: nat, res: nat, m: nat)
    requires 1 <= i < 10 && s + i < |buf| && m > 0 && res == Running(buf[s..s + i]) % m
    requires forall j :: s <= j < s + i ==> buf[j] >= 128
    ensures ShiftAdd(res, buf[s + i] as int - 1, Pow(i), m) == Running(buf[s..s + i + 1]) % m
    ensures buf[s + i] < 128 ==> VarintAt(buf, s, i + 1) && Running(buf[s..s + i + 1]) == Val(buf[s..s + i + 1])
  {
    var bs, b := buf[s..s + i], buf[s + i];
    assert buf[s..s + i + 1] == bs + [b];
    RunningStep(bs, b);
    ShiftAddIs(res, Running(bs), b as int - 1, Pow(i), m);
  }

  lemma RunningOfTwo(bs: seq<byte>)
    requires |bs| == 2
    ensures Val(bs) <= Running(bs) < U32
  {
    assert bs[1..] == [bs[1]] && bs[1..][1..] == [];
    assert Val(bs[1..]) == bs[1] % 128;
    assert Val(bs) == bs[0] % 128 + 128 * Val(bs[1..]);
    assert Pow(2) == 128 * Pow(1) && Pow(1) == 128 * Pow(0);
  }

  lemma TwoBytes(b0: byte, b1: byte)
    requires b0 >= 128
    ensures Running([b0, b1]) == ShiftAdd(b0, b1 as int - 1, 128, U32) < U32
    ensures b1 < 128 ==> Val([b0, b1]) == Running([b0, b1])
  {
    OneByte(b0);
    assert [b0, b1] == [b0] + [b1];
    RunningStep([b0], b1);
    RunningOfTwo([b0, b1]);
    assert Pow(1) == 128 * Pow(0) == 128;
    ShiftAddIs(b0, b0, b1 as int - 1, 128, U32);
  }

  /** The fast paths: one or two bytes, in 32-bit arithmetic whatever the result type. */
  method ReadFirstTwo(buf: seq<byte>, s: nat) returns (done: bool, res: nat, q: nat)
    requires Readable(buf, s)
    ensures done ==> s < q && VarintAt(buf, s, q - s) && res == Val(buf[s..q]) < U32
    ensures !done ==> s + 2 <= |buf| && buf[s] >= 128 && buf[s + 1] >= 128 && res == Running(buf[s..s + 2]) < U32
  {
    MoreBytes(buf, s, 0);
    res := buf[s];
    OneByte(buf[s]);
    assert buf[s..s + 1] == [buf[s]];
    if res < 128 {
      return true, res, s + 1;
    }
    MoreBytes(buf, s, 1);
    var b: int := buf[s + 1];
    TwoBytes(buf[s], buf[s + 1]);
    assert buf[s..s + 2] == [buf[s], buf[s + 1]];
    res := ShiftAdd(res, b - 1, 128, U32);
    if b < 128 {
      return true, res, s + 2;
    }
    return false, res, s;
  }

  /** readUInt(p, res32, quint64&) */
  method ReadRest64(buf: seq<byte>, s: nat, res0: nat) returns (result: nat, q: nat)
    requires Readable(buf, s) && s + 2 <= |buf| && buf[s] >= 128 && buf[s + 1] >= 128
    requires res0 == Running(buf[s..s + 2])
    ensures forall n :: VarintAt(buf, s, n) ==>
              result == Val(buf[s..s + n]) % U64 && q == s + n
    ensures Endless(buf, s) ==> result == 0 && q == s
  {
    var res := res0;
    var i := 2;
    RunningOfTwo(buf[s..s + 2]);
    while i < 10
      invariant 2 <= i <= 10 && s + i <= |buf| && res == Running(buf[s..s + i]) % U64
      invariant forall j :: s <= j < s + i ==> buf[j] >= 128
    {
      MoreBytes(buf, s, i);
      var b := buf[s + i];
      NextGroup(buf, s, i, res, U64);
      res := ShiftAdd(res, b as int - 1, Pow(i), U64);
      if b < 128 {
        Terminated(buf, s, i + 1);
        return res, s + i + 1;
      }
      i := i + 1;
    }
    return 0, s;
  }

  /** readUInt<quint64> */
  method ReadUInt64(buf: seq<byte>, p: nat) returns (result: nat, q: nat)
    requires Readable(buf, p + 1)
    ensures forall n :: UIntAt(buf, p, n) ==> result == UIntValue(buf, p, n) % U64 && q == p + 1 + n
    ensures Endless(buf, p + 1) ==> result == 0 && q == p + 1
  {
    var s := p + 1;
    var done, res;
    done, res, q := ReadFirstTwo(buf, s);
    if done {
      Terminated(buf, s, q - s);
      return res, q;
    }
    result, q := ReadRest64(buf, s, res);
  }

  lemma Pow5()
    ensures Pow(5) == 34359738368
  {
    assert Pow(1) == 128 && Pow(2) == 16384 && Pow(3) == 2097152 && Pow(4) == 268435456;
  }

  lemma WholeTimes(q: nat)
    ensures U32 * q / U32 == q
  {
  }

  lemma {:induction false} PowHigh(k: nat)
    requires k >= 5
    ensures Pow(k) == U32 * (Pow(k) / U32)
  {
    if k == 5 {
      Pow5();
    } else {
      PowHigh(k - 1);
      var q := Pow(k - 1) / U32;
      TimesLeft(128, U32, q);
      WholeTimes(128 * q);
    }
  }

  /** Groups from the fifth on (bits 35 and up) do not show modulo 2^32. */
  lemma {:induction false} HighGroups(bs: seq<byte>, n: nat)
    requires 5 <= n <= |bs|
    ensures Val(bs) % U32 == Val(bs[..n]) % U32
    decreases |bs|
  {
    if |bs| == n {
      assert bs[..n] == bs;
    } else {
      var k := |bs| - 1;
      var init := bs[..k];
      assert bs == init + [bs[k]] && init[..n] == bs[..n];
      HighGroups(init, n);
      ValSnoc(init, bs[k]);
      PowHigh(k);
      var g := bs[k] % 128;
      TimesLeft(g, U32, Pow(k) / U32);
      ModSame(Val(bs), Val(init), U32, g * (Pow(k) / U32));
    }
  }

  /** The second loop: only the end of the varint is looked for. */
  method SkipGroups(buf: seq<byte>, s: nat) returns (q: nat)
    requires Readable(buf, s) && s + 5 <= |buf| && forall j :: s <= j < s + 5 ==> buf[j] >= 128
    ensures forall n :: VarintAt(buf, s, n) ==> q == s + n && Val(buf[s..s + n]) % U32 == Val(buf[s..s + 5]) % U32
    ensures Endless(buf, s) ==> q == s
  {
    var i := 5;
    while i < 10
      invariant 5 <= i <= 10 && s + i <= |buf|
      invariant forall j :: s <= j < s + i ==> buf[j] >= 128
    {
      MoreBytes(buf, s, i);
      if buf[s + i] < 128 {
        Terminated(buf, s, i + 1);
        HighGroups(buf[s..s + i + 1], 5);
        assert buf[s..s + i + 1][..5] == buf[s..s + 5];
        return s + i + 1;
      }
      i := i + 1;
    }
    return s;
  }

  /** readUInt(p, res, quint32&) */
  method ReadRest32(buf: seq<byte>, s: nat, res0: nat) returns (result: nat, q: nat)
    requires Readable(buf, s) && s + 2 <= |buf| && buf[s] >= 128 && buf[s + 1] >= 128
    requires res0 == Running(buf[s..s + 2])
    ensures forall n :: VarintAt(buf, s, n) ==>
              result == Val(buf[s..s + n]) % U32 && q == s + n
    ensures Endless(buf, s) ==> result == Val(buf[s..s + 5]) % U32 && q == s
  {
    var res := res0;
    var i := 2;
    RunningOfTwo(buf[s..s + 2]);
    while i < 5
      invariant 2 <= i <= 5 && s + i <= |buf| && res == Running(buf[s..s + i]) % U32
      invariant forall j :: s <= j < s + i ==> buf[j] >= 128
    {
      MoreBytes(buf, s, i);
      var b := buf[s + i];
      NextGroup(buf, s, i, res, U32);
      res := ShiftAdd(res, b as int - 1, Pow(i), U32);
      if b < 128 {
        Terminated(buf, s, i + 1);
        return res, s + i + 1;
      }
      i := i + 1;
    }
    assert res == Val(buf[s..s + 5]) % U32 by {
      PowHigh(5);
      ModSame(Running(buf[s..s + 5]), Val(buf[s..s + 5]), U32, Pow(5) / U32);
    }
    q := SkipGroups(buf, s);
    return res, q;
  }

  /** readUInt<quint32> */
  method ReadUInt32(buf: seq<byte>, p: nat) returns (result: nat, q: nat)
    requires Readable(buf, p + 1)
    ensures forall n :: UIntAt(buf, p, n) ==> result == UIntValue(buf, p, n) % U32 && q == p + 1 + n
    ensures Endless(buf, p + 1) ==> result == Val(buf[p + 1..p + 6]) % U32 && q == p + 1
  {
    var s := p + 1;
    var done, res;
    done, res, q := ReadFirstTwo(buf, s);
    if done {
      Terminated(buf, s, q - s);
      return res, q;
    }
    result, q := ReadRest32(buf, s, res);
  }

  // ----- strings -----

  /** A length-delimited field at p: its tag byte, its length as a varint of n bytes, its bytes. */
  predicate IsDelimited(buf: seq<byte>, p: nat, n: nat) {
    UIntAt(buf, p, n) && UIntValue(buf, p, n) < 0x8000_0000 && p + 1 + n + UIntValue(buf, p, n) <= |buf|
  }

  /** readString, up to the decoding of the bytes as UTF-8. */
  method ReadString(buf: seq<byte>, p: nat) returns (str: seq<byte>, q: nat)
    requires exists n :: IsDelimited(buf, p, n)
    ensures forall n :: IsDelimited(buf, p, n) ==>
              q == p + 1 + n + UIntValue(buf, p, n) && str == buf[p + 1 + n..q]
  {
    ghost var n :| IsDelimited(buf, p, n);
    assert Readable(buf, p + 1);
    var length, at := ReadUInt32(buf, p);
    str := buf[at..at + length];
    q := at + length;
  }

  lemma VarintWithin(pre: seq<byte>, bytes: seq<byte>, post: seq<byte>)
    requires VarintAt(bytes, 0, |bytes|)
    ensures var buf := pre + bytes + post;
      VarintAt(buf, |pre|, |bytes|) && buf[|pre|..|pre| + |bytes|] == bytes && buf[|pre| + |bytes|..] == post
  {
  }

  /** What a writer puts down for a string is what readString takes. */
  lemma WrittenIsDelimited(before: seq<byte>, tag: byte, s: seq<byte>, rest: seq<byte>)
    requires |s| < 0x8000_0000
    ensures var bytes := Encode(|s|);
      var buf := before + [tag] + bytes + s + rest;
      var at := |before| + 1 + |bytes|;
      IsDelimited(buf, |before|, |bytes|) && UIntValue(buf, |before|, |bytes|) == |s| && buf[at..at + |s|] == s
  {
    var bytes := Encode(|s|);
    Pow5();
    EncodeIsVarint(|s|, 5);
    VarintWithin(before + [tag], bytes, s + rest);
    var buf := before + [tag] + bytes + s + rest;
    assert buf == before + [tag] + bytes + (s + rest);
  }
}
