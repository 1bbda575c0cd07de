/** The Internet checksum (crates/mmds/src/pdu.rs, section 1 of RFC 1071). */
module Checksum {
  import opened Words

  /** The big-endian 16-bit words of the buffer, added up; an odd last byte is padded with zero. */
  function Total(bytes: seq<Byte>): nat
    decreases |bytes|
  {
    if bytes == [] then 0
    else if |bytes| == 1 then 256 * (bytes[0] as int)
    else 256 * (bytes[0] as int) + (bytes[1] as int) + Total(bytes[2..])
  }

  /** One's-complement addition on 16 bits: a carry out of the top is added back in. */
  function OnesAdd(a: nat, b: nat): nat {
    if a + b > 0xFFFF then a + b - 0xFFFF else a + b
  }

  /** The reference: the words of the buffer summed with one's-complement addition. */
  function OnesSum(bytes: seq<Byte>): (r: nat)
    ensures r <= 0xFFFF
    decreases |bytes|
  {
    if bytes == [] then 0
    else if |bytes| == 1 then 256 * (bytes[0] as int)
    else OnesAdd(256 * (bytes[0] as int) + (bytes[1] as int), OnesSum(bytes[2..]))
  }

  /** The 16-bit representative the folding loop ends in: zero only for zero. */
  function Residue(n: nat): (r: nat)
    ensures r <= 0xFFFF
  {
    if n == 0 then 0 else (n - 1) % 0xFFFF + 1
  }

  lemma ResidueAdd(a: nat, b: nat)
    requires a <= 0xFFFF
    ensures OnesAdd(a, Residue(b)) == Residue(a + b)
  {
  }

  /** Folding a plain sum is one's-complement addition all along. */
  lemma {:induction false} OnesSumIsResidue(bytes: seq<Byte>)
    ensures OnesSum(bytes) == Residue(Total(bytes))
    decreases |bytes|
  {
    if |bytes| >= 2 {
      OnesSumIsResidue(bytes[2..]);
      ResidueAdd(256 * (bytes[0] as int) + (bytes[1] as int), Total(bytes[2..]));
    }
  }

  /** `while sum >> 16 != 0 { sum = (sum & 0xFFFF) + (sum >> 16) }`. */
  method Fold(sum: nat) returns (r: nat)
    ensures r == Residue(sum)
  {
    r := sum;
    while r / 0x1_0000 != 0
      invariant Residue(r) == Residue(sum)
      decreases r
    {
      FoldStep(r);
      r := r % 0x1_0000 + r / 0x1_0000;
    }
  }

  lemma FoldStep(n: nat)
    requires n >= 0x1_0000
    ensures Residue(n % 0x1_0000 + n / 0x1_0000) == Residue(n)
    ensures n % 0x1_0000 + n / 0x1_0000 < n
  {
    var q, r := n / 0x1_0000, n % 0x1_0000;
    assert n == (q + r) + 0xFFFF * q;
    ResidueShift(q + r, q);
  }

  lemma ResidueShift(a: nat, q: nat)
    requires a > 0
    ensures Residue(a + 0xFFFF * q) == Residue(a)
  {
    QuotientUnique(a - 1 + 0xFFFF * q, 0xFFFF, (a - 1) / 0xFFFF + q, (a - 1) % 0xFFFF);
  }

  lemma WrappingAdd(a: nat, b: nat)
    ensures (a % U32_LIMIT + b) % U32_LIMIT == (a + b) % U32_LIMIT
  {
  }

  /** What the code's wrapping accumulator, folded and complemented, comes to. */
  function ChecksumOf(bytes: seq<Byte>): nat {
    0xFFFF - Residue(Total(bytes) % U32_LIMIT)
  }

  /** `ones_complement_sum`: a 32-bit wrapping accumulator, folded and complemented. */
  method OnesComplementSum(bytes: seq<Byte>) returns (r: nat)
    ensures r == ChecksumOf(bytes)
    ensures Unwrapped(bytes) <==> r == 0xFFFF - OnesSum(bytes)
  {
    var sum, i := 0, 0;
    ghost var added: nat := 0;
    while i + 1 < |bytes|
      invariant i <= |bytes|
      invariant added + Total(bytes[i..]) == Total(bytes) && sum == added % U32_LIMIT
    {
      var word := 256 * (bytes[i] as int) + (bytes[i + 1] as int);
      assert bytes[i..][2..] == bytes[i + 2..];
      WrappingAdd(added, word);
      sum := (sum + word) % U32_LIMIT;
      added := added + word;
      i := i + 2;
    }
    if i < |bytes| {
      var word := 256 * (bytes[i] as int);
      WrappingAdd(added, word);
      sum := (sum + word) % U32_LIMIT;
      added := added + word;
    }
    assert added == Total(bytes);
    var folded := Fold(sum);
    r := 0xFFFF - folded;
    OnesSumIsResidue(bytes);
    WrapIsHarmlessIff(Total(bytes));
  }

  /** The 32-bit accumulator did not lose anything that shows in 16 bits. */
  predicate Unwrapped(bytes: seq<Byte>) {
    var n := Total(bytes);
    n < U32_LIMIT || (n % U32_LIMIT != 0 && (n / U32_LIMIT) % 0xFFFF == 0)
  }

  /** 2^32 is 1 modulo 2^16 - 1, so every wrap-around loses exactly one. */
  lemma WrapIsHarmlessIff(n: nat)
    ensures Residue(n % U32_LIMIT) == Residue(n) <==>
            n < U32_LIMIT || (n % U32_LIMIT != 0 && (n / U32_LIMIT) % 0xFFFF == 0)
  {
    var q, s := n / U32_LIMIT, n % U32_LIMIT;
    assert n == s + q + 0xFFFF * (65537 * q);
    if q > 0 && s > 0 {
      ResidueShift(s + q, 65537 * q);
      assert Residue(n) == Residue(s + q);
      SameResidueIff(s, q);
    }
  }

  lemma SameResidueIff(s: nat, q: nat)
    requires s > 0
    ensures Residue(s + q) == Residue(s) <==> q % 0xFFFF == 0
  {
    var a := s - 1;
    if q % 0xFFFF == 0 {
      QuotientUnique(a + q, 0xFFFF, a / 0xFFFF + q / 0xFFFF, a % 0xFFFF);
    } else if (a + q) % 0xFFFF == a % 0xFFFF {
      ExactQuotient(q, 0xFFFF, (a + q) / 0xFFFF - a / 0xFFFF);
    }
  }

  /** The number of 16-bit words, a last half word included. */
  function WordCount(bytes: seq<Byte>): nat
    decreases |bytes|
  {
    if bytes == [] then 0 else if |bytes| == 1 then 1 else 1 + WordCount(bytes[2..])
  }

  lemma {:induction false} TotalBound(bytes: seq<Byte>)
    ensures Total(bytes) <= 0xFFFF * WordCount(bytes) && 2 * WordCount(bytes) <= |bytes| + 1
    decreases |bytes|
  {
    if |bytes| < 2 {
    } else {
      TotalBound(bytes[2..]);
    }
  }

  /** Every buffer of at most 131074 bytes, so every IPv4 packet, is summed without a wrap. */
  lemma ShortBuffersFit(bytes: seq<Byte>)
    requires |bytes| <= 131074
    ensures Total(bytes) < U32_LIMIT && Unwrapped(bytes)
  {
    TotalBound(bytes);
    assert WordCount(bytes) <= 65537;
  }

  /** `k` words of all ones before `tail`. */
  function OnesThen(k: nat, tail: seq<Byte>): (r: seq<Byte>)
    ensures |r| == 2 * k + |tail|
    decreases k, tail
  {
    if k == 0 then tail else [255, 255] + OnesThen(k - 1, tail)
  }

  lemma {:induction false} TotalOfOnes(k: nat, tail: seq<Byte>)
    ensures Total(OnesThen(k, tail)) == 0xFFFF * k + Total(tail)
    decreases k
  {
    if k == 0 {
    } else {
      TotalOfOnes(k - 1, tail);
      assert OnesThen(k, tail)[2..] == OnesThen(k - 1, tail);
    }
  }

  /** One byte of ones and then zeros. */
  function HalfThenZeros(n: nat): (r: seq<Byte>)
    ensures |r| == n + 1
  {
    [255] + seq(n, _ => 0)
  }

  lemma {:induction false} TotalOfZeros(n: nat)
    ensures Total(seq(n, _ => 0)) == 0
    decreases n
  {
    if n < 2 {
    } else {
      TotalOfZeros(n - 2);
      assert seq(n, _ => 0)[2..] == seq(n - 2, _ => 0);
    }
  }

  lemma TotalOfHalf(n: nat)
    ensures Total(HalfThenZeros(n)) == 0xFF00
  {
    if n > 0 {
      TotalOfZeros(n - 1);
      assert HalfThenZeros(n)[2..] == seq(n - 1, _ => 0);
    }
  }

  /** A longer buffer that is summed wrong: 65537 words of ones, half a word more, then zeros. */
  lemma LongBufferWraps(k: nat, n: nat)
    requires k == 65537 && n > 131074
    ensures var bytes := OnesThen(k, HalfThenZeros(n - 131075));
            |bytes| == n && !Unwrapped(bytes) && ChecksumOf(bytes) != 0xFFFF - OnesSum(bytes)
  {
    var bytes := OnesThen(k, HalfThenZeros(n - 131075));
    TotalOfOnes(k, HalfThenZeros(n - 131075));
    TotalOfHalf(n - 131075);
    assert Total(bytes) == U32_LIMIT + 65279;
    OnesSumIsResidue(bytes);
    WrapIsHarmlessIff(Total(bytes));
  }

  /** All buffers of length `n` are summed right exactly up to 131074 bytes. */
  lemma AllBuffersFitIff(n: nat)
    ensures (forall bytes: seq<Byte> :: |bytes| == n ==> ChecksumOf(bytes) == 0xFFFF - OnesSum(bytes)) <==> n <= 131074
  {
    if n <= 131074 {
      forall bytes: seq<Byte> | |bytes| == n ensures ChecksumOf(bytes) == 0xFFFF - OnesSum(bytes) {
        ShortChecksum(bytes);
      }
    } else {
      LongBufferWraps(65537, n);
    }
  }

  /** The buffer with a 16-bit field at `k` replaced. */
  function Patched(bytes: seq<Byte>, k: nat, field: nat): seq<Byte>
    requires k + 1 < |bytes| && field <= 0xFFFF
  {
    bytes[k := field / 256][k + 1 := field % 256]
  }

  lemma {:induction false} TotalPatched(bytes: seq<Byte>, k: nat, field: nat)
    requires k + 1 < |bytes| && k % 2 == 0 && field <= 0xFFFF && bytes[k] == 0 && bytes[k + 1] == 0
    ensures Total(Patched(bytes, k, field)) == Total(bytes) + field
    decreases k
  {
    var b := Patched(bytes, k, field);
    if k == 0 {
      assert b[2..] == bytes[2..];
    } else {
      assert b[2..] == Patched(bytes[2..], k - 2, field);
      TotalPatched(bytes[2..], k - 2, field);
    }
  }

  /**
   Storing the checksum of a buffer in a zeroed field at an even offset makes the whole buffer
   sum to all ones.
   */
  lemma StoredChecksumFills(bytes: seq<Byte>, k: nat)
    requires k + 1 < |bytes| && k % 2 == 0 && bytes[k] == 0 && bytes[k + 1] == 0
    ensures OnesSum(Patched(bytes, k, 0xFFFF - OnesSum(bytes))) == 0xFFFF
  {
    var n := Total(bytes);
    var field := 0xFFFF - OnesSum(bytes);
    OnesSumIsResidue(bytes);
    TotalPatched(bytes, k, field);
    OnesSumIsResidue(Patched(bytes, k, field));
    ComplementFills(n);
  }

  lemma ShortChecksum(bytes: seq<Byte>)
    requires |bytes| <= 131074
    ensures ChecksumOf(bytes) == 0xFFFF - OnesSum(bytes)
  {
    ShortBuffersFit(bytes);
    SmallModulo(Total(bytes));
    OnesSumIsResidue(bytes);
  }

  lemma SmallModulo(n: nat)
    requires n < U32_LIMIT
    ensures n % U32_LIMIT == n
  {
  }

  /** Storing what the code returns makes the code return zero on the stored buffer. */
  lemma StoredChecksumVerifies(bytes: seq<Byte>, k: nat)
    requires k + 1 < |bytes| <= 131074 && k % 2 == 0 && bytes[k] == 0 && bytes[k + 1] == 0
    ensures ChecksumOf(Patched(bytes, k, ChecksumOf(bytes))) == 0
  {
    ShortChecksum(bytes);
    ShortChecksum(Patched(bytes, k, ChecksumOf(bytes)));
    StoredChecksumFills(bytes, k);
  }

  lemma ComplementFills(n: nat)
    ensures Residue(n + (0xFFFF - Residue(n))) == 0xFFFF
  {
  }
}
