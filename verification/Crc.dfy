/**
 The CRC-64 that guards a snapshot state file (crates/snapshot/src/envelope.rs).

 A reflected CRC with zero initial register and no final xor, over any 64-bit polynomial whose
 top bit is set (a reflected generator always has it).  The register is updated bit by bit.
 */
module Crc {
  import opened Words

  predicate IsGenerator(poly: nat) {
    U64_LIMIT / 2 <= poly < U64_LIMIT
  }

  /** One bit of division: shift right, fold the generator in when a one falls out. */
  function Shift(poly: nat, r: nat): nat {
    if r % 2 == 1 then Xor(r / 2, poly) else r / 2
  }

  function Shifts(poly: nat, r: nat, n: nat): nat
    decreases n, r
  {
    if n == 0 then r else Shifts(poly, Shift(poly, r), n - 1)
  }

  function Feed(poly: nat, r: nat, b: Byte): nat {
    Shifts(poly, Xor(r, b), 8)
  }

  /** `crc64(r, bytes)`. */
  function Crc64(poly: nat, r: nat, bytes: seq<Byte>): nat
    decreases |bytes|
  {
    if bytes == [] then r else Crc64(poly, Feed(poly, r, bytes[0]), bytes[1..])
  }

  /** Little-endian bytes as a number, least significant first. */
  function FromLe(bytes: seq<Byte>): nat
    decreases |bytes|
  {
    if bytes == [] then 0 else bytes[0] + 256 * FromLe(bytes[1..])
  }

  function ToLe(r: nat, n: nat): (bytes: seq<Byte>)
    ensures |bytes| == n
    decreases n
  {
    if n == 0 then [] else [r % 256] + ToLe(r / 256, n - 1)
  }

  // ---- one bit ---------------------------------------------------------------------------

  /** One step of the division is linear over xor. */
  lemma ShiftXor(poly: nat, a: nat, b: nat)
    ensures Shift(poly, Xor(a, b)) == Xor(Shift(poly, a), Shift(poly, b))
  {
    XorHalf(a, b);
    var x, y := a / 2, b / 2;
    if a % 2 == 1 && b % 2 == 1 {
      // (x ^ p) ^ (y ^ p) == x ^ y
      XorAssociative(x, poly, Xor(y, poly));
      XorCommutes(poly, Xor(y, poly));
      XorCancel(y, poly);
    } else if a % 2 == 1 {
      // (x ^ p) ^ y == (x ^ y) ^ p
      XorAssociative(x, poly, y);
      XorCommutes(poly, y);
      XorAssociative(x, y, poly);
    } else if b % 2 == 1 {
      XorAssociative(x, y, poly);
    }
  }

  lemma XorWord(a: nat, b: nat)
    requires a < U64_LIMIT && b < U64_LIMIT
    ensures Xor(a, b) < U64_LIMIT
  {
    WordLimit();
    XorBound(a, b, 64);
  }

  lemma XorTopWord(a: nat, b: nat)
    requires a < U64_LIMIT / 2 <= b < U64_LIMIT
    ensures Xor(a, b) >= U64_LIMIT / 2
  {
    WordLimit();
    assert Pow2(64) == 2 * Pow2(63);
    XorTop(a, b, 63);
  }

  lemma ShiftBound(poly: nat, r: nat)
    requires IsGenerator(poly) && r < U64_LIMIT
    ensures Shift(poly, r) < U64_LIMIT
  {
    if r % 2 == 1 { XorWord(r / 2, poly); }
  }

  /** One step loses nothing: the generator's top bit records what fell out. */
  lemma ShiftInjective(poly: nat, a: nat, b: nat)
    requires IsGenerator(poly) && a < U64_LIMIT && b < U64_LIMIT
    requires Shift(poly, a) == Shift(poly, b)
    ensures a == b
  {
    if a % 2 == 1 && b % 2 == 1 {
      XorInjective(a / 2, b / 2, poly);
      SameHalves(a, b);
    } else if a % 2 == 1 {
      XorTopWord(a / 2, poly);
    } else if b % 2 == 1 {
      XorTopWord(b / 2, poly);
    } else {
      SameHalves(a, b);
    }
  }

  // ---- many bits -------------------------------------------------------------------------

  lemma {:induction false} ShiftsXor(poly: nat, a: nat, b: nat, n: nat)
    ensures Shifts(poly, Xor(a, b), n) == Xor(Shifts(poly, a, n), Shifts(poly, b, n))
    decreases n
  {
    if n == 0 {
    } else {
      ShiftXor(poly, a, b);
      ShiftsXor(poly, Shift(poly, a), Shift(poly, b), n - 1);
    }
  }

  lemma {:induction false} ShiftsBound(poly: nat, r: nat, n: nat)
    requires IsGenerator(poly) && r < U64_LIMIT
    ensures Shifts(poly, r, n) < U64_LIMIT
    decreases n
  {
    if n == 0 {
    } else {
      ShiftBound(poly, r);
      ShiftsBound(poly, Shift(poly, r), n - 1);
    }
  }

  lemma {:induction false} ShiftsInjective(poly: nat, a: nat, b: nat, n: nat)
    requires IsGenerator(poly) && a < U64_LIMIT && b < U64_LIMIT
    requires Shifts(poly, a, n) == Shifts(poly, b, n)
    ensures a == b
    decreases n
  {
    if n == 0 {
    } else {
      ShiftBound(poly, a);
      ShiftBound(poly, b);
      ShiftsInjective(poly, Shift(poly, a), Shift(poly, b), n - 1);
      ShiftInjective(poly, a, b);
    }
  }

  lemma {:induction false} ShiftsAdd(poly: nat, r: nat, m: nat, n: nat)
    ensures Shifts(poly, Shifts(poly, r, m), n) == Shifts(poly, r, m + n)
    decreases m
  {
    if m == 0 {
    } else {
      ShiftsAdd(poly, Shift(poly, r), m - 1, n);
    }
  }

  lemma {:induction false} ShiftsOfZero(poly: nat, n: nat)
    ensures Shifts(poly, 0, n) == 0
    decreases n
  {
    if n == 0 {
    } else {
      ShiftsOfZero(poly, n - 1);
    }
  }

  /** `a << k`, without dropping digits. */
  function Doubled(a: nat, k: nat): nat
    decreases k, a
  {
    if k == 0 then a else 2 * Doubled(a, k - 1)
  }

  lemma {:induction false} ShiftsUndoDoubling(poly: nat, a: nat, k: nat)
    ensures Shifts(poly, Doubled(a, k), k) == a
    decreases k
  {
    if k == 0 {
    } else {
      ShiftsUndoDoubling(poly, a, k - 1);
    }
  }

  /** Bits above the low eight can be xored in before or after eight steps. */
  lemma DelayXor(poly: nat, r: nat, a: nat)
    ensures Shifts(poly, Xor(r, Doubled(a, 8)), 8) == Xor(Shifts(poly, r, 8), a)
  {
    ShiftsXor(poly, r, Doubled(a, 8), 8);
    ShiftsUndoDoubling(poly, a, 8);
  }

  // ---- bytes -----------------------------------------------------------------------------

  lemma {:induction false} AddIsXor(b: nat, a: nat, k: nat)
    requires b < Pow2(k)
    ensures b + Doubled(a, k) == Xor(b, Doubled(a, k))
    decreases k
  {
    if k == 0 {
    } else {
      var d := Doubled(a, k - 1);
      AddIsXor(b / 2, a, k - 1);
      XorHalf(b, 2 * d);
      HalvesDecide(b + 2 * d, b / 2 + d, b % 2);
      SameHalves(b + 2 * d, Xor(b, 2 * d));
    }
  }

  lemma DoubledEight(a: nat)
    ensures Doubled(a, 8) == 256 * a
  {
    assert Doubled(a, 1) == 2 * a;
    assert Doubled(a, 2) == 4 * a;
    assert Doubled(a, 3) == 8 * a;
    assert Doubled(a, 4) == 16 * a;
    assert Doubled(a, 5) == 32 * a;
    assert Doubled(a, 6) == 64 * a;
    assert Doubled(a, 7) == 128 * a;
  }

  lemma ByteThenRest(b: Byte, rest: nat)
    ensures b + 256 * rest == Xor(b, Doubled(rest, 8))
  {
    assert Pow2(8) == 256;
    AddIsXor(b, rest, 8);
    DoubledEight(rest);
  }

  lemma {:induction false} FromLeBound(bytes: seq<Byte>)
    ensures FromLe(bytes) < Pow2(8 * |bytes|)
    decreases |bytes|
  {
    if bytes == [] {
    } else {
      FromLeBound(bytes[1..]);
      Pow2Add(8 * |bytes[1..]|, 8);
      assert Pow2(8) == 256;
    }
  }

  lemma {:induction false} FromToLe(r: nat, n: nat)
    requires r < Pow2(8 * n)
    ensures FromLe(ToLe(r, n)) == r
    decreases n
  {
    if n == 0 {
    } else {
      Pow2Add(8 * (n - 1), 8);
      assert Pow2(8) == 256;
      FromToLe(r / 256, n - 1);
    }
  }

  lemma {:induction false} ToFromLe(bytes: seq<Byte>)
    ensures ToLe(FromLe(bytes), |bytes|) == bytes
    decreases |bytes|
  {
    if bytes == [] {
    } else {
      ToFromLe(bytes[1..]);
      QuotientUnique(FromLe(bytes), 256, FromLe(bytes[1..]), bytes[0]);
      assert [bytes[0]] + bytes[1..] == bytes;
    }
  }

  lemma {:induction false} CrcConcat(poly: nat, r: nat, a: seq<Byte>, b: seq<Byte>)
    ensures Crc64(poly, r, a + b) == Crc64(poly, Crc64(poly, r, a), b)
    decreases |a|
  {
    if a == [] {
      assert a + b == b;
    } else {
      assert (a + b)[0] == a[0] && (a + b)[1..] == a[1..] + b;
      CrcConcat(poly, Feed(poly, r, a[0]), a[1..], b);
    }
  }

  /** One byte fed, later bytes waiting above it. */
  lemma FeedUnder(poly: nat, r: nat, b: Byte, rest: nat)
    ensures Xor(Feed(poly, r, b), rest) == Shifts(poly, Xor(r, b + 256 * rest), 8)
  {
    DelayXor(poly, Xor(r, b), rest);
    ByteThenRest(b, rest);
    XorAssociative(r, b, Doubled(rest, 8));
  }

  /** Feeding bytes is xoring them in as one little-endian number and then shifting. */
  lemma {:induction false} CrcAsOneNumber(poly: nat, r: nat, bytes: seq<Byte>)
    ensures Crc64(poly, r, bytes) == Shifts(poly, Xor(r, FromLe(bytes)), 8 * |bytes|)
    decreases |bytes|
  {
    if bytes == [] {
      XorZero(r);
    } else {
      var rest := bytes[1..];
      CrcAsOneNumber(poly, Feed(poly, r, bytes[0]), rest);
      FeedUnder(poly, r, bytes[0], FromLe(rest));
      ShiftsAdd(poly, Xor(r, FromLe(bytes)), 8, 8 * |rest|);
    }
  }

  lemma {:induction false} CrcBound(poly: nat, r: nat, bytes: seq<Byte>)
    requires IsGenerator(poly) && r < U64_LIMIT
    ensures Crc64(poly, r, bytes) < U64_LIMIT
    decreases |bytes|
  {
    if bytes == [] {
    } else {
      FeedBound(poly, r, bytes[0]);
      CrcBound(poly, Feed(poly, r, bytes[0]), bytes[1..]);
    }
  }

  lemma FeedBound(poly: nat, r: nat, b: Byte)
    requires IsGenerator(poly) && r < U64_LIMIT
    ensures Xor(r, b) < U64_LIMIT && Feed(poly, r, b) < U64_LIMIT
  {
    XorWord(r, b);
    ShiftsBound(poly, Xor(r, b), 8);
  }

  /** Different registers stay different whatever is fed to both. */
  lemma {:induction false} CrcInjectiveInRegister(poly: nat, r: nat, r': nat, bytes: seq<Byte>)
    requires IsGenerator(poly) && r < U64_LIMIT && r' < U64_LIMIT
    requires Crc64(poly, r, bytes) == Crc64(poly, r', bytes)
    ensures r == r'
    decreases |bytes|
  {
    if bytes == [] {
    } else {
      FeedBound(poly, r, bytes[0]);
      FeedBound(poly, r', bytes[0]);
      CrcInjectiveInRegister(poly, Feed(poly, r, bytes[0]), Feed(poly, r', bytes[0]), bytes[1..]);
      ShiftsInjective(poly, Xor(r, bytes[0]), Xor(r', bytes[0]), 8);
      XorInjective(r, r', bytes[0]);
    }
  }

  /** Different windows of at most eight bytes leave different registers. */
  lemma CrcInjectiveInWindow(poly: nat, r: nat, w: seq<Byte>, w': seq<Byte>)
    requires IsGenerator(poly) && r < U64_LIMIT && |w| == |w'| <= 8
    requires Crc64(poly, r, w) == Crc64(poly, r, w')
    ensures w == w'
  {
    CrcAsOneNumber(poly, r, w);
    CrcAsOneNumber(poly, r, w');
    var a, a' := FromLe(w), FromLe(w');
    WindowFits(w);
    WindowFits(w');
    XorWord(r, a);
    XorWord(r, a');
    ShiftsInjective(poly, Xor(r, a), Xor(r, a'), 8 * |w|);
    XorCommutes(r, a);
    XorCommutes(r, a');
    XorInjective(a, a', r);
    ToFromLe(w);
    ToFromLe(w');
  }

  lemma WindowFits(w: seq<Byte>)
    requires |w| <= 8
    ensures FromLe(w) < U64_LIMIT
  {
    WordLimit();
    FromLeBound(w);
    if 8 * |w| < 64 { Pow2Monotone(8 * |w|, 64); }
  }

  /**
   The load-time test: the CRC of the whole buffer is zero exactly when its last eight bytes are
   the little-endian CRC of the rest.
   */
  lemma ResidueIffTrailer(poly: nat, buf: seq<Byte>)
    requires IsGenerator(poly) && |buf| >= 8
    ensures Crc64(poly, 0, buf) == 0 <==>
            buf[|buf| - 8..] == ToLe(Crc64(poly, 0, buf[..|buf| - 8]), 8)
  {
    var body, trailer := buf[..|buf| - 8], buf[|buf| - 8..];
    assert buf == body + trailer;
    CrcConcat(poly, 0, body, trailer);
    CrcBound(poly, 0, body);
    TrailerCancels(poly, Crc64(poly, 0, body), trailer);
  }

  lemma TrailerCancels(poly: nat, r: nat, trailer: seq<Byte>)
    requires IsGenerator(poly) && r < U64_LIMIT && |trailer| == 8
    ensures Crc64(poly, r, trailer) == 0 <==> trailer == ToLe(r, |trailer|)
  {
    var x, n := Xor(r, FromLe(trailer)), 8 * |trailer|;
    CrcAsOneNumber(poly, r, trailer);
    WindowFits(trailer);
    XorWord(r, FromLe(trailer));
    ShiftsOfZero(poly, n);
    if Shifts(poly, x, n) == 0 { ShiftsInjective(poly, x, 0, n); }
    XorIsZero(r, FromLe(trailer));
    ToFromLe(trailer);
    WordLimit();
    FromToLe(r, |trailer|);
  }

  /**
   Any corruption confined to eight consecutive bytes changes the CRC, wherever the window lies.
   A single changed byte is the special case of a one-byte window.
   */
  lemma WindowCorruptionDetected(poly: nat, pre: seq<Byte>, w: seq<Byte>, w': seq<Byte>, post: seq<Byte>)
    requires IsGenerator(poly) && |w| == |w'| <= 8 && w != w'
    ensures Crc64(poly, 0, pre + w + post) != Crc64(poly, 0, pre + w' + post)
  {
    var r := Crc64(poly, 0, pre);
    CrcBound(poly, 0, pre);
    CrcConcat(poly, 0, pre + w, post);
    CrcConcat(poly, 0, pre, w);
    CrcConcat(poly, 0, pre + w', post);
    CrcConcat(poly, 0, pre, w');
    CrcBound(poly, r, w);
    CrcBound(poly, r, w');
    if Crc64(poly, 0, pre + w + post) == Crc64(poly, 0, pre + w' + post) {
      CrcInjectiveInRegister(poly, Crc64(poly, r, w), Crc64(poly, r, w'), post);
      CrcInjectiveInWindow(poly, r, w, w');
    }
  }
}
