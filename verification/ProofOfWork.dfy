/** The proof of work: `leadingZeroBits` and `checkPoW` as threshold tests on the hash value. */
module ProofOfWork {

  import opened Binary

  /** `z` leading zeros put a value of `w` bits between two neighbouring powers of two. */
  ghost predicate LeadingZeros(v: nat, w: nat, z: nat) {
    && z <= w && v < Pow2(w - z)
    && (z < w ==> v >= Pow2(w - z - 1))
  }

  /** The condition as a threshold, for every `d`. */
  lemma ZerosAreThreshold(v: nat, w: nat, z: nat, d: nat)
    requires LeadingZeros(v, w, z) && d <= w
    ensures z >= d <==> v < Pow2(w - d)
  {
    if z >= d {
      Pow2Monotone(w - z, w - d);
    } else {
      Pow2Monotone(w - d, w - z - 1);
    }
  }

  /** The inner loop: the leading zeros of one byte. */
  method ZerosOfByte(c: Byte) returns (z: nat)
    requires c != 0
    ensures z < 8 && LeadingZeros(c as nat, 8, z)
  {
    z := 0;
    var i := 7;
    Pow2Step(0);
    while i >= 0
      invariant -1 <= i <= 7 && z == 7 - i && c as nat < Pow2(i + 1)
    {
      TopBit(c as nat, i);
      if Bit(c as nat, i) { return; }
      z := z + 1;
      i := i - 1;
    }
  }

  /** Once a one bit has come, what follows does not matter. */
  lemma {:induction false} PrefixDecides(b: seq<Byte>, k: nat, z: nat)
    requires k <= |b| && z < 8 * k && LeadingZeros(Value(b[..k]), 8 * k, z)
    ensures LeadingZeros(Value(b), 8 * |b|, z)
    decreases |b|
  {
    if k < |b| {
      var init := b[..|b| - 1];
      assert init[..k] == b[..k];
      PrefixDecides(init, k, z);
      Pow2Step(8 * |init| - z);
      Pow2Step(8 * |init| - z - 1);
    } else {
      assert b[..k] == b;
    }
  }

  /** `leadingZeroBits`. */
  method LeadingZeroBits(b: seq<Byte>) returns (n: nat)
    ensures LeadingZeros(Value(b), 8 * |b|, n)
  {
    n := 0;
    for k := 0 to |b|
      invariant n == 8 * k && Value(b[..k]) == 0
    {
      assert b[..k + 1][..k] == b[..k];
      if b[k] == 0 {
        n := n + 8;
      } else {
        var z := ZerosOfByte(b[k]);
        PrefixDecides(b, k + 1, n + z);
        return n + z;
      }
    }
    assert b[..|b|] == b;
  }

  /** What is hashed: the nonce, a colon and the solution. */
  function Message(nonce: seq<Byte>, solution: nat): seq<Byte> {
    nonce + [58] + BigEndian(solution, 8)
  }

  /** What is hashed, byte by byte: the nonce, 58 for the colon, and eight bytes that read as the solution. */
  lemma MessageIs(nonce: seq<Byte>, solution: nat)
    requires solution < Pow2(64)
    ensures var m := Message(nonce, solution);
      |m| == |nonce| + 9 && m[..|nonce|] == nonce && m[|nonce|] == 58 && Value(m[|nonce| + 1..]) == solution
  {
    BigEndianValue(solution, 8);
    assert Message(nonce, solution)[|nonce| + 1..] == BigEndian(solution, 8);
  }

  /** No two pairs of nonce and solution hash the same bytes, colons in nonces notwithstanding. */
  lemma MessageInjective(n1: seq<Byte>, s1: nat, n2: seq<Byte>, s2: nat)
    requires s1 < Pow2(64) && s2 < Pow2(64) && Message(n1, s1) == Message(n2, s2)
    ensures n1 == n2 && s1 == s2
  {
    var m1, m2 := Message(n1, s1), Message(n2, s2);
    assert |m1| == |n1| + 9 && |m2| == |n2| + 9;
    assert m1[..|n1|] == n1 && m2[..|n2|] == n2;
    assert m1[|n1| + 1..] == BigEndian(s1, 8) && m2[|n2| + 1..] == BigEndian(s2, 8);
    BigEndianValue(s1, 8);
    BigEndianValue(s2, 8);
  }

  /** The hash, read as a number, is below the threshold of the difficulty. */
  predicate MeetsDifficulty(sum: seq<Byte>, difficulty: int) {
    difficulty <= 0 || (difficulty <= 8 * |sum| && Value(sum) < Pow2(8 * |sum| - difficulty))
  }

  /** Counting leading zeros is that threshold test. */
  method Meets(sum: seq<Byte>, difficulty: int) returns (ok: bool)
    ensures ok <==> MeetsDifficulty(sum, difficulty)
  {
    var n := LeadingZeroBits(sum);
    if 0 <= difficulty <= 8 * |sum| {
      ZerosAreThreshold(Value(sum), 8 * |sum|, n, difficulty);
    }
    ok := n >= difficulty;
  }

  predicate Solves(sha: seq<Byte> -> seq<Byte>, nonce: seq<Byte>, solution: nat, difficulty: int) {
    MeetsDifficulty(sha(Message(nonce, solution)), difficulty)
  }

  /** `checkPoW`, for any hash. */
  method CheckPoW(sha: seq<Byte> -> seq<Byte>, nonce: seq<Byte>, solution: nat, difficulty: int) returns (ok: bool)
    ensures ok <==> Solves(sha, nonce, solution, difficulty)
  {
    ok := Meets(sha(Message(nonce, solution)), difficulty);
  }

  /** `SolvePoW` finds the least solution below 2^32, if there is one. */
  method SolvePoW(sha: seq<Byte> -> seq<Byte>, nonce: seq<Byte>, difficulty: int) returns (ok: bool, solution: nat)
    ensures ok ==> solution < Pow2(32) && Solves(sha, nonce, solution, difficulty)
    ensures forall s :: 0 <= s < (if ok then solution else Pow2(32)) ==> !Solves(sha, nonce, s, difficulty)
  {
    Pow2Step(0); Pow2Step(8); Pow2Step(16); Pow2Step(24);
    for i := 0 to 0x1_0000_0000
      invariant forall s :: 0 <= s < i ==> !Solves(sha, nonce, s, difficulty)
    {
      var good := CheckPoW(sha, nonce, i, difficulty);
      if good { return true, i; }
    }
    return false, 0;
  }
}
