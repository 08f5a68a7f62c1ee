/** The pure parts of the adaptive proof-of-work: big-endian encodings, the bit-counting loop,
    the puzzle preimages and the difficulty rule (x/mana/keeper/keeper.go). */
module Pow {
  import opened Machine
  import opened Types
  import opened Rate

  function Pow2(n: nat): (r: nat)
    ensures r > 0
  {
    if n == 0 then 1 else 2 * Pow2(n - 1)
  }

  lemma MulAssociative(x: int, y: int, z: int)
    ensures x * (y * z) == (x * y) * z
  {
  }

  lemma {:induction false} Pow2Add(m: nat, n: nat)
    ensures Pow2(m + n) == Pow2(m) * Pow2(n)
  {
    if m > 0 {
      Pow2Add(m - 1, n);
      MulAssociative(2, Pow2(m - 1), Pow2(n));
      assert m - 1 + n == m + n - 1;
    }
  }

  lemma {:induction false} Pow2Monotone(m: nat, n: nat)
    requires m <= n
    ensures Pow2(m) <= Pow2(n)
  {
    if m < n {
      Pow2Monotone(m, n - 1);
    }
  }

  lemma MachineWidths()
    ensures Pow2(8) == 256 && Pow2(32) == TWO_32 && Pow2(64) == TWO_64
  {
    assert Pow2(4) == 16;
    Pow2Add(4, 4);
    Pow2Add(8, 8);
    Pow2Add(16, 16);
    Pow2Add(32, 32);
  }

  // ---------------------------------------------------------------------------
  // Big-endian integers
  // ---------------------------------------------------------------------------

  /** The big-endian value of a byte string. */
  function BigEndian(b: seq<byte>): nat {
    if b == [] then 0 else BigEndian(b[..|b| - 1]) * 256 + b[|b| - 1]
  }

  /** PutUint32 (n = 4) and PutUint64 (n = 8) of encoding/binary. */
  function PutBigEndian(n: nat, x: nat): (b: seq<byte>)
    ensures |b| == n
  {
    if n == 0 then [] else PutBigEndian(n - 1, x / 256) + [x % 256]
  }

  lemma {:induction false} BigEndianRoundTrip(n: nat, x: nat)
    requires x < Pow2(8 * n)
    ensures BigEndian(PutBigEndian(n, x)) == x
  {
    if n > 0 {
      Pow2Add(8, 8 * (n - 1));
      assert Pow2(8) == 256;
      BigEndianRoundTrip(n - 1, x / 256);
      assert PutBigEndian(n, x)[..n - 1] == PutBigEndian(n - 1, x / 256);
    }
  }

  /** The first byte is the most significant one. */
  lemma {:induction false} BigEndianHead(b: seq<byte>)
    requires b != []
    ensures BigEndian(b) == b[0] * Pow2(8 * (|b| - 1)) + BigEndian(b[1..])
  {
    if |b| > 1 {
      var init := b[..|b| - 1];
      BigEndianHead(init);
      assert init[1..] == b[1..][..|b| - 2];
      Pow2Add(8, 8 * (|b| - 2));
      assert Pow2(8) == 256;
      MulAssociative(b[0], Pow2(8 * (|b| - 2)), 256);
    }
  }

  lemma {:induction false} BigEndianBound(b: seq<byte>)
    ensures BigEndian(b) < Pow2(8 * |b|)
  {
    if b != [] {
      BigEndianBound(b[..|b| - 1]);
      Pow2Add(8, 8 * (|b| - 1));
      assert Pow2(8) == 256;
    }
  }

  // ---------------------------------------------------------------------------
  // Counting leading zero bits
  // ---------------------------------------------------------------------------

  /** bits.LeadingZeros8 */
  function LeadingZeros8(x: byte): uint32 {
    if x >= 128 then 0
    else if x >= 64 then 1
    else if x >= 32 then 2
    else if x >= 16 then 3
    else if x >= 8 then 4
    else if x >= 4 then 5
    else if x >= 2 then 6
    else if x >= 1 then 7
    else 8
  }

  /** The number of zero bits before the first one bit, over unbounded integers. */
  function LeadingZeros(b: seq<byte>): nat {
    if b == [] then 0
    else if b[0] == 0 then 8 + LeadingZeros(b[1..])
    else LeadingZeros8(b[0])
  }

  /** Counts byte by byte, 8 for every zero byte, and stops in the first other one.  The counter is a
      uint32 and wraps on inputs of half a gigabyte of zeros. */
  method LeadingZeroBits(b: seq<byte>) returns (count: uint32)
    ensures count == LeadingZeros(b) % TWO_32
  {
    count := 0;
    for i := 0 to |b|
      invariant LeadingZeros(b) == 8 * i + LeadingZeros(b[i..])
      invariant count == 8 * i % TWO_32
    {
      assert b[i..][1..] == b[i + 1..];
      if b[i] == 0 {
        WrapAdd(8 * i, 8);
        count := AddUint32(count, 8);
      } else {
        WrapAdd(8 * i, LeadingZeros8(b[i]));
        count := AddUint32(count, LeadingZeros8(b[i]));
        return;
      }
    }
  }

  lemma LeadingZeros8Value(x: byte, d: nat)
    requires 1 <= d <= 8
    ensures LeadingZeros8(x) >= d <==> x < Pow2(8 - d)
  {
    assert Pow2(0) == 1 && Pow2(1) == 2 && Pow2(2) == 4 && Pow2(3) == 8;
    assert Pow2(4) == 16 && Pow2(5) == 32 && Pow2(6) == 64 && Pow2(7) == 128;
  }

  /** A number is below y * k exactly when its leading digit is below y. */
  lemma DigitBelow(x: nat, t: nat, k: nat, y: nat)
    requires t < k
    ensures x * k + t < y * k <==> x < y
  {
    if x < y {
      MulMonotone(x + 1, y, k);
      Distribute(x, 1, k);
    } else {
      MulMonotone(y, x, k);
    }
  }

  /** Counting leading zero bits is comparing the big-endian value with a power of two. */
  lemma {:induction false} LeadingZerosValue(b: seq<byte>, d: nat)
    requires d <= 8 * |b|
    ensures LeadingZeros(b) >= d <==> BigEndian(b) < Pow2(8 * |b| - d)
  {
    if d == 0 {
      BigEndianBound(b);
    } else {
      var k := Pow2(8 * (|b| - 1));
      BigEndianHead(b);
      BigEndianBound(b[1..]);
      if d <= 8 {
        LeadingZeros8Value(b[0], d);
        Pow2Add(8 - d, 8 * (|b| - 1));
        DigitBelow(b[0], BigEndian(b[1..]), k, Pow2(8 - d));
      } else if b[0] == 0 {
        LeadingZerosValue(b[1..], d - 8);
      } else {
        Pow2Monotone(8 * |b| - d, 8 * (|b| - 1));
        MulMonotone(1, b[0], k);
      }
    }
  }

  lemma {:induction false} LeadingZerosBound(b: seq<byte>)
    ensures LeadingZeros(b) <= 8 * |b|
  {
    if b != [] {
      LeadingZerosBound(b[1..]);
    }
  }

  /** When the wrapping counter is the true count: exactly when the first 2^29 bytes are not all zero. */
  lemma CounterExact(b: seq<byte>)
    ensures LeadingZeros(b) % TWO_32 == LeadingZeros(b)
            <==> |b| < 0x2000_0000 || BigEndian(b[..0x2000_0000]) != 0
  {
    var h: nat := 0x2000_0000;
    LeadingZerosBound(b);
    if |b| >= h {
      LeadingZerosPrefix(b, h);
      LeadingZerosValue(b[..h], 8 * h);
      LeadingZerosBound(b[..h]);
      assert Pow2(0) == 1;
    }
    if LeadingZeros(b) < TWO_32 {
      assert LeadingZeros(b) % TWO_32 == LeadingZeros(b);
    }
  }

  lemma {:induction false} LeadingZerosPrefix(b: seq<byte>, n: nat)
    requires n <= |b|
    ensures LeadingZeros(b) >= 8 * n <==> LeadingZeros(b[..n]) >= 8 * n
  {
    if n > 0 {
      assert b[..n][1..] == b[1..][..n - 1];
      LeadingZerosPrefix(b[1..], n - 1);
    }
  }

  // ---------------------------------------------------------------------------
  // The puzzle
  // ---------------------------------------------------------------------------

  function ChallengePreimage(chainId: seq<byte>, signer: Addr, sequence: uint64): seq<byte> {
    chainId + signer + PutBigEndian(8, sequence)
  }

  function PowChallenge(cfg: Config, signer: Addr, sequence: uint64): seq<byte> {
    cfg.sha256(ChallengePreimage(cfg.chainId, signer, sequence))
  }

  function WorkPreimage(challenge: seq<byte>, memo: seq<byte>): seq<byte> {
    challenge + memo
  }

  function PowWork(cfg: Config, challenge: seq<byte>, memo: seq<byte>): seq<byte> {
    cfg.sha256(WorkPreimage(challenge, memo))
  }

  lemma Sequence64RoundTrip(x: uint64)
    ensures BigEndian(PutBigEndian(8, x)) == x
  {
    MachineWidths();
    BigEndianRoundTrip(8, x);
  }

  lemma Difficulty32RoundTrip(x: uint32)
    ensures BigEndian(PutBigEndian(4, x)) == x
  {
    MachineWidths();
    BigEndianRoundTrip(4, x);
  }

  /** Which puzzles coincide: the encoding puts no separator between chain and signer, so exactly
      those whose chain and signer bytes run together to the same string, at the same sequence. */
  lemma ChallengePreimageEqual(c1: seq<byte>, a1: Addr, s1: uint64, c2: seq<byte>, a2: Addr, s2: uint64)
    ensures ChallengePreimage(c1, a1, s1) == ChallengePreimage(c2, a2, s2)
            <==> c1 + a1 == c2 + a2 && s1 == s2
  {
    var p1, p2 := ChallengePreimage(c1, a1, s1), ChallengePreimage(c2, a2, s2);
    if p1 == p2 {
      assert |c1 + a1| == |c2 + a2|;
      assert c1 + a1 == p1[..|p1| - 8] && c2 + a2 == p2[..|p2| - 8];
      assert PutBigEndian(8, s1) == p1[|p1| - 8..] && PutBigEndian(8, s2) == p2[|p2| - 8..];
      Sequence64RoundTrip(s1);
      Sequence64RoundTrip(s2);
    }
  }

  /** On one chain, and across chains for signers of one length, a puzzle belongs to one chain, signer
      and sequence only. */
  lemma PuzzleBinding(c1: seq<byte>, a1: Addr, s1: uint64, c2: seq<byte>, a2: Addr, s2: uint64)
    requires c1 == c2 || |a1| == |a2|
    ensures ChallengePreimage(c1, a1, s1) == ChallengePreimage(c2, a2, s2) <==> c1 == c2 && a1 == a2 && s1 == s2
  {
    ChallengePreimageEqual(c1, a1, s1, c2, a2, s2);
    var x, y := c1 + a1, c2 + a2;
    assert x[..|c1|] == c1 && x[|c1|..] == a1;
    assert y[..|c2|] == c2 && y[|c2|..] == a2;
    assert x == y ==> |c1| + |a1| == |c2| + |a2|;
  }

  predicate IsPrefix(x: seq<byte>, y: seq<byte>) {
    |x| <= |y| && y[..|x|] == x
  }

  /** Whether a solved puzzle of one chain can never be a puzzle of the other, whoever signs. */
  ghost predicate NeverShared(c1: seq<byte>, c2: seq<byte>) {
    forall a1: Addr, a2: Addr, s1: uint64, s2: uint64 | ValidAddr(a1) && ValidAddr(a2) ::
      ChallengePreimage(c1, a1, s1) != ChallengePreimage(c2, a2, s2)
  }

  /** A chain whose identifier extends another's shares puzzles with it: the signer on the shorter one
      takes up the rest of the identifier. */
  lemma ExtensionShares(short: seq<byte>, extra: seq<byte>, rest: Addr, sequence: uint64)
    requires extra != [] && ValidAddr(rest) && |extra| + |rest| <= 255
    ensures ValidAddr(extra + rest)
    ensures ChallengePreimage(short + extra, rest, sequence) == ChallengePreimage(short, extra + rest, sequence)
  {
    assert (short + extra) + rest == short + (extra + rest);
  }

  /** When replay protection across chains holds, read off the two chain identifiers: exactly if neither
      is a prefix of the other.  (Identifiers have at most 50 bytes; 254 leave room for one signer byte.) */
  lemma ChainsSeparatedIffPrefixFree(c1: seq<byte>, c2: seq<byte>)
    requires c1 != c2 && |c1| <= 254 && |c2| <= 254
    ensures NeverShared(c1, c2) <==> !IsPrefix(c1, c2) && !IsPrefix(c2, c1)
  {
    if IsPrefix(c1, c2) {
      SharedFromPrefix(c1, c2);
    } else if IsPrefix(c2, c1) {
      SharedFromPrefix(c2, c1);
    } else {
      forall a1: Addr, a2: Addr, s1: uint64, s2: uint64 | ValidAddr(a1) && ValidAddr(a2)
        ensures ChallengePreimage(c1, a1, s1) != ChallengePreimage(c2, a2, s2)
      {
        SharedMeansPrefix(c1, a1, s1, c2, a2, s2);
      }
    }
  }

  lemma SharedFromPrefix(short: seq<byte>, long: seq<byte>)
    requires short != long && IsPrefix(short, long) && |long| <= 254
    ensures !NeverShared(short, long) && !NeverShared(long, short)
  {
    var extra := long[|short|..];
    assert long == short + extra;
    ExtensionShares(short, extra, [0], 0);
    assert ValidAddr([0]) && ValidAddr(extra + [0]);
    assert ChallengePreimage(long, [0], 0) == ChallengePreimage(short, extra + [0], 0);
  }

  lemma SharedMeansPrefix(c1: seq<byte>, a1: Addr, s1: uint64, c2: seq<byte>, a2: Addr, s2: uint64)
    ensures ChallengePreimage(c1, a1, s1) == ChallengePreimage(c2, a2, s2) ==> IsPrefix(c1, c2) || IsPrefix(c2, c1)
  {
    ChallengePreimageEqual(c1, a1, s1, c2, a2, s2);
    var x, y := c1 + a1, c2 + a2;
    assert x[..|c1|] == c1 && y[..|c2|] == c2;
    if x == y && |c1| <= |c2| {
      assert c2[..|c1|] == x[..|c1|];
    } else if x == y {
      assert c1[..|c2|] == x[..|c2|];
    }
  }

  /** For instance chain "JE" and a signer that starts with 'E' share their puzzles with chain "JEE". */
  lemma PuzzleAmbiguousAcrossChains(rest: Addr, sequence: uint64)
    requires ValidAddr(rest) && |rest| <= 254
    ensures ValidAddr([0x45] + rest)
    ensures ChallengePreimage([0x4A, 0x45, 0x45], rest, sequence)
            == ChallengePreimage([0x4A, 0x45], [0x45] + rest, sequence)
  {
    assert [0x4A, 0x45, 0x45] == [0x4A, 0x45] + [0x45];
    ExtensionShares([0x4A, 0x45], [0x45], rest, sequence);
  }

  /** The work preimage determines challenge and memo, because a challenge has 32 bytes. */
  lemma WorkPreimageSplits(challenge: seq<byte>, memo: seq<byte>)
    requires |challenge| == 32
    ensures var p := WorkPreimage(challenge, memo);
            |p| >= 32 && p[..32] == challenge && p[32..] == memo
  {
  }

  lemma WorkPreimageInjective(c1: seq<byte>, m1: seq<byte>, c2: seq<byte>, m2: seq<byte>)
    requires |c1| == 32 && |c2| == 32
    requires WorkPreimage(c1, m1) == WorkPreimage(c2, m2)
    ensures c1 == c2 && m1 == m2
  {
    WorkPreimageSplits(c1, m1);
    WorkPreimageSplits(c2, m2);
  }

  /** Whether two different messages have the same hash. */
  ghost predicate Collides(sha256: seq<byte> -> seq<byte>, x: seq<byte>, y: seq<byte>) {
    x != y && sha256(x) == sha256(y)
  }

  /** Work is bound to its transaction and nonce.  If the hash of one (chain, signer, sequence, memo) is
      the hash of another, where both are on one chain or both signers have one length, then the two are
      the same, or a collision of SHA-256 can be read off them. */
  lemma WorkBinding(c1: Config, a1: Addr, s1: uint64, m1: seq<byte>, c2: Config, a2: Addr, s2: uint64, m2: seq<byte>)
    requires Lawful(c1) && Lawful(c2) && c1.sha256 == c2.sha256
    requires c1.chainId == c2.chainId || |a1| == |a2|
    requires PowWork(c1, PowChallenge(c1, a1, s1), m1) == PowWork(c2, PowChallenge(c2, a2, s2), m2)
    ensures || (c1.chainId == c2.chainId && a1 == a2 && s1 == s2 && m1 == m2)
            || (exists x, y :: Collides(c1.sha256, x, y))
  {
    var p1, p2 := ChallengePreimage(c1.chainId, a1, s1), ChallengePreimage(c2.chainId, a2, s2);
    var h1, h2 := PowChallenge(c1, a1, s1), PowChallenge(c2, a2, s2);
    PuzzleBinding(c1.chainId, a1, s1, c2.chainId, a2, s2);
    if h1 + m1 != h2 + m2 {
      assert Collides(c1.sha256, h1 + m1, h2 + m2);
    } else {
      WorkPreimageInjective(h1, m1, h2, m2);
      assert p1 == p2 || Collides(c1.sha256, p1, p2);
    }
  }

  // ---------------------------------------------------------------------------
  // The difficulty walk
  // ---------------------------------------------------------------------------

  function NextDifficulty(difficulty: uint32, blockTxCount: uint64): uint32 {
    if blockTxCount > POW_HIGH_WATERMARK && difficulty < POW_MAX_DIFFICULTY then difficulty + 1
    else if blockTxCount < POW_LOW_WATERMARK && difficulty > 0 then difficulty - 1
    else difficulty
  }

  /** The difficulty after a sequence of blocks, given by their transaction counts. */
  function Walk(start: uint32, counts: seq<uint64>): uint32 {
    if counts == [] then start
    else NextDifficulty(Walk(start, counts[..|counts| - 1]), counts[|counts| - 1])
  }

  /** Congested blocks (more than 1000 transactions) minus calm blocks (fewer than 200). */
  function Pressure(counts: seq<uint64>): int {
    if counts == [] then 0
    else
      var c := counts[|counts| - 1];
      Pressure(counts[..|counts| - 1])
      + (if c > 1000 then 1 else if c < 200 then -1 else 0)
  }

  lemma {:induction false} WalkInRange(start: uint32, counts: seq<uint64>)
    requires start <= 24
    ensures Walk(start, counts) <= 24
    ensures counts != [] ==> -1 <= Walk(start, counts) - Walk(start, counts[..|counts| - 1]) <= 1
  {
    if counts != [] {
      WalkInRange(start, counts[..|counts| - 1]);
    }
  }

  /** A difficulty is never unearned: if the walk from 0 ends at k > 0, some stretch of blocks up to
      now had at least k more congested blocks than calm ones. */
  lemma {:induction false} DifficultyIsEarned(counts: seq<uint64>)
    ensures exists i :: 0 <= i <= |counts| && Pressure(counts[i..]) >= Walk(0, counts)
  {
    var n := |counts|;
    assert Pressure(counts[n..]) == 0;
    if n > 0 && Walk(0, counts) > 0 {
      var init := counts[..n - 1];
      DifficultyIsEarned(init);
      var i :| 0 <= i <= |init| && Pressure(init[i..]) >= Walk(0, init);
      assert counts[i..][..n - i - 1] == init[i..];
      assert Pressure(counts[i..]) >= Walk(0, counts);
    }
  }

  /** The dual: the walk from the maximum falls by k only if some stretch of blocks up to now had at least
      k more calm blocks than congested ones. */
  lemma {:induction false} ReliefIsEarned(counts: seq<uint64>)
    ensures exists i :: 0 <= i <= |counts| && Pressure(counts[i..]) <= Walk(24, counts) - 24
  {
    var n := |counts|;
    assert Pressure(counts[n..]) == 0;
    WalkInRange(24, counts);
    if n > 0 && Walk(24, counts) < 24 {
      var init := counts[..n - 1];
      ReliefIsEarned(init);
      var i :| 0 <= i <= |init| && Pressure(init[i..]) <= Walk(24, init) - 24;
      assert counts[i..][..n - i - 1] == init[i..];
      assert Pressure(counts[i..]) <= Walk(24, counts) - 24;
    }
  }

  /** Every walk in closed form: the start moved by the net pressure of all blocks, but never below the
      walk from 0 and never above the walk from 24. */
  lemma {:induction false} WalkClosed(start: uint32, counts: seq<uint64>)
    requires start <= 24
    ensures Walk(start, counts) == Min(Walk(24, counts), Max(Walk(0, counts), start + Pressure(counts)))
  {
    if counts != [] {
      WalkClosed(start, counts[..|counts| - 1]);
      WalkInRange(0, counts[..|counts| - 1]);
      WalksConverge(0, 24, counts[..|counts| - 1]);
    }
  }

  /** Blocks of 200 to 1000 transactions leave every difficulty where it was. */
  lemma {:induction false} WalkSteady(start: uint32, counts: seq<uint64>)
    requires forall c | c in counts :: 200 <= c <= 1000
    ensures Walk(start, counts) == start
  {
    if counts != [] {
      var init := counts[..|counts| - 1];
      assert counts[|counts| - 1] in counts;
      assert forall c | c in init :: c in counts;
      WalkSteady(start, init);
    }
  }

  /** Two walks over the same blocks keep their order and never move apart. */
  lemma {:induction false} WalksConverge(s1: uint32, s2: uint32, counts: seq<uint64>)
    requires s1 <= s2 <= 24
    ensures Walk(s1, counts) <= Walk(s2, counts) <= 24
    ensures Walk(s2, counts) - Walk(s1, counts) <= s2 - s1
  {
    if counts != [] {
      WalksConverge(s1, s2, counts[..|counts| - 1]);
    }
  }

  lemma {:induction false} WalkUniform(start: uint32, counts: seq<uint64>)
    requires start <= 24
    ensures (forall c | c in counts :: c > 1000)
            ==> Walk(start, counts) == Min(24, start + |counts|)
    ensures (forall c | c in counts :: c < 200)
            ==> Walk(start, counts) == Max(0, start - |counts|)
  {
    if counts != [] {
      var init := counts[..|counts| - 1];
      assert counts[|counts| - 1] in counts;
      assert forall c | c in init :: c in counts;
      WalkUniform(start, init);
    }
  }

  lemma {:induction false} WalkAppend(start: uint32, c1: seq<uint64>, c2: seq<uint64>)
    ensures Walk(start, c1 + c2) == Walk(Walk(start, c1), c2)
  {
    if c2 == [] {
      assert c1 + c2 == c1;
    } else {
      WalkAppend(start, c1, c2[..|c2| - 1]);
      assert (c1 + c2)[..|c1 + c2| - 1] == c1 + c2[..|c2| - 1];
    }
  }

  /** The starting difficulty is forgotten: after 24 congested blocks in a row, or 24 calm ones,
      two walks over the same blocks are equal and stay equal. */
  lemma WalksCoincide(s1: uint32, s2: uint32, before: seq<uint64>, uniform: seq<uint64>, after: seq<uint64>)
    requires s1 <= 24 && s2 <= 24
    requires |uniform| >= 24
    requires (forall c | c in uniform :: c > 1000) || (forall c | c in uniform :: c < 200)
    ensures Walk(s1, before + uniform + after) == Walk(s2, before + uniform + after)
  {
    WalkInRange(s1, before);
    WalkInRange(s2, before);
    WalkUniform(Walk(s1, before), uniform);
    WalkUniform(Walk(s2, before), uniform);
    WalkAppend(s1, before, uniform);
    WalkAppend(s2, before, uniform);
    WalkAppend(s1, before + uniform, after);
    WalkAppend(s2, before + uniform, after);
  }
}
