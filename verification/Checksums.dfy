/** The Internet checksum with a single fold, its byte order, and when filling it in and verifying it agree. */
module Checksums {
  type Byte = b: int | 0 <= b < 0x100
  type Word = w: int | 0 <= w < 0x1_0000

  const WRAP32 := 0x1_0000_0000

  // ---------- byte order (shifts and masks written as division and remainder) ----------

  /** The value of two bytes in network order. */
  ghost function BigEndian(hi: Byte, lo: Byte): Word { hi as int * 0x100 + lo as int }

  function Ntohs(a: Word): Word { a % 0x100 * 0x100 + a / 0x100 }

  function Htons(a: Word): Word { a % 0x100 * 0x100 + a / 0x100 }

  function Byte2uint16(lo: Byte, hi: Byte): (r: Word)
    ensures r % 0x100 == lo && r / 0x100 == hi
  {
    TwoDigits(lo, hi);
    hi as int * 0x100 + lo as int
  }

  function Byte2uint32(b: seq<Byte>): (r: int)
    requires |b| >= 4
    ensures 0 <= r < WRAP32
    ensures r % 0x100 == b[0] && r / 0x100 % 0x100 == b[1] && r / 0x1_0000 % 0x100 == b[2] && r / 0x100_0000 == b[3]
  {
    FourBytes(b[0], b[1], b[2], b[3]);
    b[3] as int * 0x100_0000 + b[2] as int * 0x1_0000 + b[1] as int * 0x100 + b[0] as int
  }

  function Ntohl(a: int): int
    requires 0 <= a < WRAP32
  {
    a % 0x100 * 0x100_0000 + a / 0x100 % 0x100 * 0x1_0000 + a / 0x1_0000 % 0x100 * 0x100 + a / 0x100_0000
  }

  /** Reading two or four bytes in host order and converting gives their big-endian value. */
  lemma NetworkOrder(b: seq<Byte>)
    requires |b| >= 4
    ensures Ntohs(Byte2uint16(b[0], b[1])) == BigEndian(b[0], b[1])
    ensures 0 <= Byte2uint32(b) < WRAP32
    ensures Ntohl(Byte2uint32(b)) == BigEndian(b[0], b[1]) * 0x1_0000 + BigEndian(b[2], b[3])
  {
    hide Byte2uint16, Byte2uint32;
  }

  lemma NetworkWord(hi: Byte, lo: Byte)
    ensures Ntohs(Byte2uint16(hi, lo)) == BigEndian(hi, lo)
  {
    hide Byte2uint16;
  }

  lemma TwoDigits(p: int, q: int)
    requires 0 <= p < 0x100 && 0 <= q < 0x100
    ensures (q * 0x100 + p) % 0x100 == p && (q * 0x100 + p) / 0x100 == q
  {}

  /** The four base-256 digits of a number. */
  lemma FourBytes(p: int, q: int, r: int, s: int)
    requires 0 <= p < 0x100 && 0 <= q < 0x100 && 0 <= r < 0x100 && 0 <= s < 0x100
    ensures var a := s * 0x100_0000 + r * 0x1_0000 + q * 0x100 + p;
            && a % 0x100 == p && a / 0x100 % 0x100 == q && a / 0x1_0000 % 0x100 == r && a / 0x100_0000 == s
            && 0 <= a < WRAP32
  {
    var a := s * 0x100_0000 + r * 0x1_0000 + q * 0x100 + p;
    assert a / 0x100_0000 == s;
    assert a / 0x1_0000 == r + 0x100 * s;
    assert a / 0x100 == q + 0x100 * (r + 0x100 * s);
  }

  /** Converting twice changes nothing, and a converted word stored in host order lies in memory big-endian. */
  lemma StoredBigEndian(w: Word)
    ensures Ntohs(Htons(w)) == w
    ensures Htons(w) % 0x100 == w / 0x100 && Htons(w) / 0x100 == w % 0x100
  {}

  // ---------- the sum ----------

  /** The sum of the big-endian 16-bit words; a last odd byte is left out. */
  ghost function WordSum(data: seq<Byte>): nat {
    if |data| < 2 then 0 else BigEndian(data[0], data[1]) + WordSum(data[2..])
  }

  ghost function FoldOnce(s: nat): nat { s / 0x1_0000 + s % 0x1_0000 }

  /** What Checksum returns. */
  ghost function ChecksumOf(data: seq<Byte>): Word {
    0xFFFF - FoldOnce(WordSum(data) % WRAP32) % 0x1_0000
  }

  /** One turn of the accumulation: 16-bit arithmetic for the word, 32-bit wrap-around for the sum. */
  function Accumulate(chksum: int, msb: Byte, lsb: Byte): int {
    (chksum + (lsb as int + msb as int * 0x100 % 0x1_0000) % 0x1_0000) % WRAP32
  }

  /** The high half plus the low half, as the code computes it in 32 bits. */
  function FoldHalves(chksum: int): int { chksum / 0x1_0000 % 0x1_0000 + chksum % 0x1_0000 }

  /** sums gives the accumulator's value before each turn of the loop and after the last. */
  method Checksum(data: seq<Byte>) returns (r: Word, ghost sums: seq<int>)
    ensures r == ChecksumOf(data)
    ensures var s := WordSum(data) % 0x1_0000_0000; r == 0xFFFF - (s / 0x1_0000 + s % 0x1_0000) % 0x1_0000
    ensures |sums| == |data| / 2 + 1
    ensures forall k :: 0 <= k < |sums| ==> Summed(sums[k], data, 2 * k)
  {
    hide Accumulate, FoldHalves, ChecksumOf, WRAP32, WordSum, Summed;
    var chksum, i := 0, 0;
    NothingSummed(data);
    sums := [0];
    while i < |data| - 1
      invariant 0 <= i <= |data| && i % 2 == 0 && Summed(chksum, data, i)
      invariant |sums| == i / 2 + 1 && forall k :: 0 <= k < |sums| ==> Summed(sums[k], data, 2 * k)
    {
      var msb, lsb := data[i], data[i + 1];
      AddWord(chksum, data, i);
      chksum := Accumulate(chksum, msb, lsb);
      i := i + 2;
      sums := sums + [chksum];
    }
    AllSummed(chksum, data, i);
    ChecksumMeaning(data);
    chksum := FoldHalves(chksum);
    r := 0xFFFF - chksum % 0x1_0000;
  }

  lemma ChecksumMeaning(data: seq<Byte>)
    ensures var s := WordSum(data) % 0x1_0000_0000; ChecksumOf(data) == 0xFFFF - (s / 0x1_0000 + s % 0x1_0000) % 0x1_0000
  {}

  /** The accumulator after the first i bytes: their sum, modulo 2^32. */
  ghost predicate Summed(chksum: int, data: seq<Byte>, i: int) {
    0 <= i <= |data| && i % 2 == 0 && chksum == WordSum(data[..i]) % WRAP32
  }

  lemma NothingSummed(data: seq<Byte>)
    ensures Summed(0, data, 0)
  {
    assert WordSum(data[..0]) == 0;
  }

  lemma AddWord(chksum: int, data: seq<Byte>, i: int)
    requires 0 <= i < |data| - 1 && Summed(chksum, data, i)
    ensures Summed(Accumulate(chksum, data[i], data[i + 1]), data, i + 2)
  {
    NextWord(data, i);
    AccumulateWord(WordSum(data[..i]), data[i], data[i + 1]);
    hide WordSum, BigEndian, Accumulate, WRAP32;
  }

  lemma AccumulateWord(s: int, msb: Byte, lsb: Byte)
    ensures Accumulate(s % WRAP32, msb, lsb) == (s + BigEndian(msb, lsb)) % WRAP32
  {
    WordSplit(msb, lsb);
    AddWrapped(s, BigEndian(msb, lsb));
    hide BigEndian;
  }

  lemma NextWord(data: seq<Byte>, i: int)
    requires 0 <= i < |data| - 1 && i % 2 == 0
    ensures WordSum(data[..i + 2]) == WordSum(data[..i]) + BigEndian(data[i], data[i + 1])
  {
    PrefixSum(data[..i + 2], i);
    assert data[..i + 2][..i] == data[..i];
    var last := data[..i + 2][i..];
    assert last[0] == data[i] && last[1] == data[i + 1] && |last| == 2 && last[2..] == [];
  }

  lemma WordSplit(msb: Byte, lsb: Byte)
    ensures (lsb as int + msb as int * 0x100 % 0x1_0000) % 0x1_0000 == BigEndian(msb, lsb)
  {}

  /** Adding with 32-bit wrap-around keeps the total modulo 2^32. */
  lemma AddWrapped(s: int, w: int)
    ensures (s % WRAP32 + w) % WRAP32 == (s + w) % WRAP32
  {
    assert s + w == s / WRAP32 * WRAP32 + (s % WRAP32 + w);
  }

  lemma AllSummed(chksum: int, data: seq<Byte>, i: int)
    requires |data| <= i + 1 && Summed(chksum, data, i)
    ensures 0xFFFF - FoldHalves(chksum) % 0x1_0000 == ChecksumOf(data)
  {
    PrefixSum(data, i);
    assert WordSum(data[i..]) == 0;
    hide WordSum, FoldHalves, FoldOnce, WRAP32;
    HalvesFold(chksum);
  }

  lemma HalvesFold(chksum: int)
    requires 0 <= chksum < WRAP32
    ensures FoldHalves(chksum) == FoldOnce(chksum)
  {}

  method VerifyChecksum(data: seq<Byte>) returns (ok: bool)
    ensures ok <==> ChecksumOf(data) == 0
    ensures var s := WordSum(data) % 0x1_0000_0000; ok <==> (s / 0x1_0000 + s % 0x1_0000) % 0x1_0000 == 0xFFFF
  {
    var c, _ := Checksum(data);
    ok := c == 0;
  }

  lemma {:induction false} WordSumBound(data: seq<Byte>)
    ensures WordSum(data) <= |data| / 2 * 0xFFFF
  {
    if |data| >= 2 { WordSumBound(data[2..]); }
  }

  /** Up to 65537 words the 32-bit accumulator never wraps. */
  lemma NoWrap(data: seq<Byte>)
    requires |data| / 2 <= 65537
    ensures WordSum(data) < WRAP32 && WordSum(data) % WRAP32 == WordSum(data)
  {
    WordSumBound(data);
  }

  /** Every prefix of even length accumulates without wrapping too. */
  lemma {:induction false} PrefixSum(data: seq<Byte>, i: nat)
    requires i <= |data| && i % 2 == 0
    ensures WordSum(data[..i]) + WordSum(data[i..]) == WordSum(data)
  {
    if i >= 2 {
      PrefixSum(data[2..], i - 2);
      assert data[..i][2..] == data[2..][..i - 2] && data[2..][i - 2..] == data[i..];
    }
  }

  /** So no intermediate value of the accumulator wraps either: each is the true sum of the bytes before it. */
  lemma AccumulatorNeverWraps(data: seq<Byte>, chksum: int, i: int)
    requires |data| / 2 <= 65537 && Summed(chksum, data, i)
    ensures chksum == WordSum(data[..i]) < WRAP32
  {
    PrefixSum(data, i);
    NoWrap(data);
  }

  // ---------- filling in and verifying ----------

  /** data with the word at k replaced by w, big-endian. */
  ghost function Filled(data: seq<Byte>, k: nat, w: Word): seq<Byte>
    requires k + 1 < |data|
  {
    data[k := w / 0x100][k + 1 := w % 0x100]
  }

  lemma {:induction false} FilledSum(data: seq<Byte>, k: nat, w: Word)
    requires k % 2 == 0 && k + 1 < |data|
    ensures WordSum(Filled(data, k, w)) == WordSum(data) - BigEndian(data[k], data[k + 1]) + w
  {
    if k == 0 {
      assert Filled(data, k, w)[2..] == data[2..];
    } else {
      FilledSum(data[2..], k - 2, w);
      assert Filled(data, k, w)[2..] == Filled(data[2..], k - 2, w);
    }
  }

  /** Folding once adds the carries to the low half. */
  lemma FoldedOnce(s: nat)
    ensures FoldOnce(s) == s / 0x1_0000 + s % 0x1_0000
  {}

  /**
   With the checksum word zero, storing the checksum there makes verification succeed exactly when folding the sum
   once does not itself carry.
   */
  lemma FillThenVerify(data: seq<Byte>, k: nat)
    requires k % 2 == 0 && k + 1 < |data| && |data| / 2 <= 65537 && data[k] == 0 && data[k + 1] == 0
    ensures ChecksumOf(Filled(data, k, ChecksumOf(data))) == 0 <==>
            WordSum(data) / 0x1_0000 + WordSum(data) % 0x1_0000 <= 0xFFFF
  {
    FoldedOnce(WordSum(data));
    hide FoldOnce;
    NoWrap(data);
    ZeroWordBound(data, k);
    FilledSum(data, k, ChecksumOf(data));
    assert WordSum(Filled(data, k, ChecksumOf(data))) == WordSum(data) + ChecksumOf(data) as int;
    NoWrap(Filled(data, k, ChecksumOf(data)));
    FilledChecksum(WordSum(data), WordSum(Filled(data, k, ChecksumOf(data))));
  }

  lemma FilledChecksum(s: nat, t: nat)
    requires s <= 65536 * 0xFFFF && t == s + (0xFFFF - FoldOnce(s) % 0x1_0000)
    ensures 0xFFFF - FoldOnce(t) % 0x1_0000 == 0 <==> FoldOnce(s) <= 0xFFFF
  {
    FillArithmetic(s);
  }

  lemma ZeroWordBound(data: seq<Byte>, k: nat)
    requires k % 2 == 0 && k + 1 < |data| && |data| / 2 <= 65537 && data[k] == 0 && data[k + 1] == 0
    ensures WordSum(data) <= 65536 * 0xFFFF
  {
    FilledSum(data, k, 0xFFFF);
    WordSumBound(Filled(data, k, 0xFFFF));
  }

  lemma FillArithmetic(s: nat)
    requires s <= 65536 * 0xFFFF
    ensures var t := s + 0xFFFF - FoldOnce(s) % 0x1_0000;
            t >= 0 && (FoldOnce(t) % 0x1_0000 == 0xFFFF <==> FoldOnce(s) <= 0xFFFF)
  {
    var a, b := s / 0x1_0000, s % 0x1_0000;
    var t := s + 0xFFFF - FoldOnce(s) % 0x1_0000;
    assert s == 0x1_0000 * a + b;
    if a + b <= 0xFFFF {
      assert t == 0x1_0000 * a + (0xFFFF - a);
      assert t / 0x1_0000 == a && t % 0x1_0000 == 0xFFFF - a;
    } else {
      assert FoldOnce(s) % 0x1_0000 == a + b - 0x1_0000;
      assert t == 0x1_0000 * (a + 1) + (0xFFFF - a);
      assert t / 0x1_0000 == a + 1 && t % 0x1_0000 == 0xFFFF - a;
    }
  }

  // ---------- the fully folded checksum of RFC 1071 ----------

  /** Section 4.1 of RFC 1071: fold until no carry is left. */
  ghost function FoldFully(s: nat): Word {
    if s < 0x1_0000 then s else FoldFully(FoldOnce(s))
  }

  ghost function InternetChecksum(data: seq<Byte>): Word { 0xFFFF - FoldFully(WordSum(data)) }

  /** Section 1 of RFC 1071: the one's complement sum, every carry brought around at once. */
  ghost function OnesSum(data: seq<Byte>): Word {
    if |data| < 2 then 0
    else
      var t: int := OnesSum(data[2..]) as int + data[0] as int * 0x100 + data[1] as int;
      if t > 0xFFFF then t - 0xFFFF else t
  }

  /** Full folding is the remainder modulo 0xFFFF, with 0xFFFF instead of 0 for a positive sum. */
  lemma {:induction false} FoldFullyMeaning(s: nat)
    ensures FoldFully(s) == if s == 0 then 0 else (s - 1) % 0xFFFF + 1
    decreases s
  {
    if s >= 0x1_0000 {
      FoldFullyMeaning(FoldOnce(s));
      assert s - 1 == (FoldOnce(s) - 1) + s / 0x1_0000 * 0xFFFF && FoldOnce(s) > 0;
      hide FoldOnce;
      WholeRounds(FoldOnce(s) - 1, s / 0x1_0000);
    }
  }

  lemma WholeRounds(x: nat, a: nat)
    ensures (x + a * 0xFFFF) % 0xFFFF == x % 0xFFFF
  {
    var q, r := x / 0xFFFF, x % 0xFFFF;
    assert x + a * 0xFFFF == (q + a) * 0xFFFF + r;
  }

  /** Both ways of computing it agree. */
  lemma {:induction false} OnesSumIsFold(data: seq<Byte>)
    ensures OnesSum(data) == FoldFully(WordSum(data))
  {
    if |data| >= 2 {
      OnesSumIsFold(data[2..]);
      var s, w := WordSum(data[2..]), BigEndian(data[0], data[1]);
      FoldFullyMeaning(s);
      FoldFullyMeaning(s + w);
      OnesStep(s, w);
    }
  }

  lemma OnesStep(s: nat, w: Word)
    ensures var f := (n: nat) => if n == 0 then 0 else (n - 1) % 0xFFFF + 1;
            f(s + w) == if f(s) + w > 0xFFFF then f(s) + w - 0xFFFF else f(s) + w
  {
    if s > 0 {
      var q, r := (s - 1) / 0xFFFF, (s - 1) % 0xFFFF;
      assert s + w - 1 == q * 0xFFFF + (r + w);
      if r + w >= 0xFFFF {
        assert s + w - 1 == (q + 1) * 0xFFFF + (r + w - 0xFFFF);
      }
    }
  }

  /** Checksum computes the Internet checksum exactly when folding once does not carry. */
  lemma SingleFoldSuffices(data: seq<Byte>)
    requires |data| / 2 <= 65537
    ensures ChecksumOf(data) == InternetChecksum(data) <==> WordSum(data) / 0x1_0000 + WordSum(data) % 0x1_0000 <= 0xFFFF
  {
    NoWrap(data);
    hide WordSum;
    FoldOnceSuffices(WordSum(data));
  }

  lemma FoldOnceSuffices(s: nat)
    requires s < WRAP32
    ensures 0xFFFF - FoldOnce(s) % 0x1_0000 == 0xFFFF - FoldFully(s) <==> FoldOnce(s) <= 0xFFFF
  {
    FirstFold(s);
    hide FoldOnce, FoldFully;
    SecondFold(FoldOnce(s));
  }

  lemma FirstFold(s: nat)
    requires s < WRAP32
    ensures FoldOnce(s) <= 0x1_FFFE && FoldFully(s) == FoldFully(FoldOnce(s))
  {
    if s < 0x1_0000 { assert FoldOnce(s) == s; }
  }

  lemma SecondFold(f: nat)
    requires f <= 0x1_FFFE
    ensures FoldFully(f) == if f <= 0xFFFF then f else f - 0xFFFF
    ensures f % 0x1_0000 == if f <= 0xFFFF then f else f - 0x1_0000
  {
    if f > 0xFFFF {
      assert FoldOnce(f) == f - 0xFFFF;
      assert FoldFully(f) == FoldFully(f - 0xFFFF);
    }
  }

  /** The fully folded checksum always verifies, so the failures above come from the missing second fold alone. */
  lemma FullFoldAlwaysVerifies(data: seq<Byte>, k: nat)
    requires k % 2 == 0 && k + 1 < |data| && data[k] == 0 && data[k + 1] == 0
    ensures InternetChecksum(Filled(data, k, InternetChecksum(data))) == 0
  {
    hide FoldFully, WordSum, Filled;
    var s := WordSum(data);
    FilledSum(data, k, InternetChecksum(data));
    FullFill(s);
    assert WordSum(Filled(data, k, InternetChecksum(data))) == s + (0xFFFF - FoldFully(s));
  }

  lemma FullFill(s: nat)
    ensures s + (0xFFFF - FoldFully(s)) >= 0 && FoldFully(s + (0xFFFF - FoldFully(s))) == 0xFFFF
  {
    hide FoldFully;
    FoldFullyMeaning(s);
    var f: int := FoldFully(s);
    FoldFullyMeaning(s + (0xFFFF - f));
    if s > 0 {
      var q := (s - 1) / 0xFFFF;
      assert s - 1 == q * 0xFFFF + (f - 1);
      assert s + (0xFFFF - f) - 1 == 0xFFFE + q * 0xFFFF;
      WholeRounds(0xFFFE, q);
    }
  }

  /** A buffer whose filled-in checksum does not verify: its words are 0xFFFF, 0xFFFF, 1 and the checksum. */
  ghost function CarryData(): (d: seq<Byte>)
    ensures |d| == 8 && d[6] == 0 && d[7] == 0
  {
    [0xFF, 0xFF, 0xFF, 0xFF, 0, 1, 0, 0]
  }

  lemma CarrySum()
    ensures WordSum(CarryData()) == 0x1_FFFF
  {
    var d := CarryData();
    assert d[2..][2..][2..][2..] == [];
    assert d[2..][2..][2..] == d[6..] && d[2..][2..] == d[4..];
    assert WordSum(d[6..]) == 0 && WordSum(d[4..]) == 1;
  }

  lemma CarryExample()
    ensures ChecksumOf(Filled(CarryData(), 6, ChecksumOf(CarryData()))) != 0
  {
    CarrySum();
    assert FoldOnce(0x1_FFFF) == 0x1_0000;
    hide *;
    FillThenVerify(CarryData(), 6);
  }
}
