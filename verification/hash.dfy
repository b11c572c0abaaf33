/** 32-bit rotates and Jenkins' one-at-a-time hash, with all arithmetic
    modulo 2^32 (`bv32`). Message bytes are C `char`s, which are signed on
    the platforms the engine targets, so a byte of 0x80 or more is sign
    extended before it is added to the hash. */
module Hash {
  import opened Base

  type Byte = bv8

  /** The mask the rotates apply to their count: CHAR_BIT * sizeof(uint32_t) - 1. */
  const RotateMask: bv32 := 31

  /** Bit `i` of `v`, bit 0 being the least significant. */
  predicate Bit(v: bv32, i: bv32)
    requires i < 32
  {
    (v >> i) & 1 == 1
  }

  /** rotl32: `value` rotated left by `count`, the count taken modulo 32;
      the complementary right shift is masked too, so a count of zero
      shifts by zero rather than by 32. Bit `i` of the input lands on bit
      `i + count` modulo 32 of the result. */
  function Rotl32(value: bv32, count: bv32): (r: bv32)
    ensures forall i: bv32 :: i < 32 ==> Bit(r, (i + count) & RotateMask) == Bit(value, i)
  {
    var c := count & RotateMask;
    (value << c) | (value >> ((-c) & RotateMask))
  }

  /** rotr32: `value` rotated right by `count`, the count taken modulo 32;
      bit `i` of the input lands on bit `i - count` modulo 32. */
  function Rotr32(value: bv32, count: bv32): (r: bv32)
    ensures forall i: bv32 :: i < 32 ==> Bit(r, (i - count) & RotateMask) == Bit(value, i)
  {
    var c := count & RotateMask;
    (value >> c) | (value << ((-c) & RotateMask))
  }

  /** Only the low five bits of the count matter. */
  lemma RotateCountModulo32(value: bv32, count: bv32)
    ensures Rotl32(value, count) == Rotl32(value, count & RotateMask)
    ensures Rotr32(value, count) == Rotr32(value, count & RotateMask)
  {
  }

  /** A rotate by zero, or by any multiple of 32, changes nothing. */
  lemma RotateByZero(value: bv32, count: bv32)
    requires count & RotateMask == 0
    ensures Rotl32(value, count) == value
    ensures Rotr32(value, count) == value
  {
  }

  /** For a count in 1..31 the masked complementary shift is 32 - count. */
  lemma RotlUnfold(value: bv32, c: bv32)
    requires 1 <= c <= 31
    ensures Rotl32(value, c) == (value << c) | (value >> (32 - c))
  {
  }

  lemma RotrUnfold(value: bv32, c: bv32)
    requires 1 <= c <= 31
    ensures Rotr32(value, c) == (value >> c) | (value << (32 - c))
  {
  }

  /** Right-shifting the left rotate by `c` leaves the bits the left shift
      kept; the bits carried round fall off. */
  lemma RotlThenShiftRight(v: bv32, c: bv32)
    requires 1 <= c <= 31
    ensures ((v << c) | (v >> (32 - c))) >> c == (v << c) >> c
  {
  }

  lemma RotlThenShiftLeft(v: bv32, c: bv32)
    requires 1 <= c <= 31
    ensures ((v << c) | (v >> (32 - c))) << (32 - c) == (v >> (32 - c)) << (32 - c)
  {
  }

  lemma RotrThenShiftLeft(v: bv32, c: bv32)
    requires 1 <= c <= 31
    ensures ((v >> c) | (v << (32 - c))) << c == (v >> c) << c
  {
  }

  lemma RotrThenShiftRight(v: bv32, c: bv32)
    requires 1 <= c <= 31
    ensures ((v >> c) | (v << (32 - c))) >> (32 - c) == (v << (32 - c)) >> (32 - c)
  {
  }

  /** The low and high parts of a value, cut at any position, rejoin to it. */
  lemma LowHighRejoin(v: bv32, c: bv32)
    requires 1 <= c <= 31
    ensures ((v << c) >> c) | ((v >> (32 - c)) << (32 - c)) == v
  {
  }

  lemma HighLowRejoin(v: bv32, c: bv32)
    requires 1 <= c <= 31
    ensures ((v >> c) << c) | ((v << (32 - c)) >> (32 - c)) == v
  {
  }

  lemma RotrUndoesRotlNonZero(value: bv32, c: bv32)
    requires 1 <= c <= 31
    ensures Rotr32(Rotl32(value, c), c) == value
  {
    RotlUnfold(value, c);
    RotrUnfold(Rotl32(value, c), c);
    RotlThenShiftRight(value, c);
    RotlThenShiftLeft(value, c);
    LowHighRejoin(value, c);
  }

  lemma RotlUndoesRotrNonZero(value: bv32, c: bv32)
    requires 1 <= c <= 31
    ensures Rotl32(Rotr32(value, c), c) == value
  {
    RotrUnfold(value, c);
    RotlUnfold(Rotr32(value, c), c);
    RotrThenShiftLeft(value, c);
    RotrThenShiftRight(value, c);
    HighLowRejoin(value, c);
  }

  /** Rotating right undoes rotating left by the same count, and the other
      way round, for every count. */
  lemma RotrUndoesRotl(value: bv32, count: bv32)
    ensures Rotr32(Rotl32(value, count), count) == value
    ensures Rotl32(Rotr32(value, count), count) == value
  {
    var c := count & RotateMask;
    RotateCountModulo32(value, count);
    RotateCountModulo32(Rotl32(value, count), count);
    RotateCountModulo32(Rotr32(value, count), count);
    if c == 0 {
      RotateByZero(value, count);
      RotateByZero(Rotl32(value, count), count);
      RotateByZero(Rotr32(value, count), count);
    } else {
      assert 1 <= c <= 31;
      RotrUndoesRotlNonZero(value, c);
      RotlUndoesRotrNonZero(value, c);
    }
  }

  /** A left rotate by `c` is a right rotate by `32 - c`. */
  lemma RotlIsRotrOfComplement(value: bv32, count: bv32)
    requires 1 <= count <= 31
    ensures Rotl32(value, count) == Rotr32(value, 32 - count)
  {
    var d := 32 - count;
    assert 1 <= d <= 31 && 32 - d == count;
    RotlUnfold(value, count);
    RotrUnfold(value, d);
  }

  /** The value a C `char` contributes when it is added to a `uint32_t`:
      converted through `int`, so negative chars wrap around. */
  function Widen(b: Byte): bv32
  {
    if b < 0x80 then b as bv32 else (b as bv32) | 0xFFFF_FF00
  }

  /** One round of the hash loop, mixing in one byte. */
  function Mix(hash: bv32, b: Byte): bv32
  {
    var h1 := hash + Widen(b);
    var h2 := h1 + (h1 << 10);
    h2 ^ (h2 >> 6)
  }

  /** The loop's state after mixing every byte of `m`: a left fold of `Mix`
      starting from zero. */
  function Accumulate(m: seq<Byte>): bv32
  {
    if m == [] then 0 else Mix(Accumulate(m[..|m| - 1]), m[|m| - 1])
  }

  /** The three steps after the loop, as hash.c writes them: the middle
      step shifts right by 1. */
  function Finalise(hash: bv32): bv32
  {
    var h1 := hash + (hash << 3);
    var h2 := h1 ^ (h1 >> 1);
    h2 + (h2 << 15)
  }

  /** The finaliser of Jenkins' published one-at-a-time hash, whose middle
      step shifts right by 11. */
  function FinalisePublished(hash: bv32): bv32
  {
    var h1 := hash + (hash << 3);
    var h2 := h1 ^ (h1 >> 11);
    h2 + (h2 << 15)
  }

  /** The one-at-a-time hash as published: the same fold over the first
      `len` bytes, then the published finaliser. */
  function JenkinsOaatPublished(message: seq<Byte>, len: nat): bv32
    requires len <= |message|
  {
    FinalisePublished(Accumulate(message[..len]))
  }

  /** The specification of the hash: the finaliser applied to the fold over
      the first `len` bytes. */
  function JenkinsSpec(message: seq<Byte>, len: nat): bv32
    requires len <= |message|
  {
    Finalise(Accumulate(message[..len]))
  }

  /** hash_jenkins_oaat: the loop over the first `len` bytes, then the
      finaliser. */
  method HashJenkinsOaat(message: seq<Byte>, len: Uint32) returns (hash: bv32)
    requires len as int <= |message|
    ensures hash == Finalise(Accumulate(message[..len]))
  {
    var n: nat := len as nat;
    hash := 0;
    var i: nat := 0;
    assert message[..i] == [];
    while i != n
      invariant i <= n
      invariant hash == Accumulate(message[..i])
      decreases n - i
    {
      PrefixStep(message, i);
      hash := Mix(hash, message[i]);
      i := i + 1;
    }
    hash := Finalise(hash);
  }

  /** The fold over one more byte of a prefix is one more round. */
  lemma PrefixStep(m: seq<Byte>, i: nat)
    requires i < |m|
    ensures Accumulate(m[..i + 1]) == Mix(Accumulate(m[..i]), m[i])
  {
    assert m[..i + 1][..i] == m[..i];
  }

  /** The hash of the empty message is zero. */
  lemma EmptyHashIsZero(message: seq<Byte>)
    ensures JenkinsSpec(message, 0) == 0
  {
    assert message[..0] == [];
  }

  /** The hash reads only the first `len` bytes: two messages that agree on
      them hash alike, whatever follows. */
  lemma HashReadsOnlyPrefix(m1: seq<Byte>, m2: seq<Byte>, len: nat)
    requires len <= |m1| && len <= |m2|
    requires m1[..len] == m2[..len]
    ensures JenkinsSpec(m1, len) == JenkinsSpec(m2, len)
  {
  }

  /** Hashing is incremental: the fold over `m + [b]` is one more round on
      the fold over `m`. */
  lemma {:induction false} AccumulateAppend(m: seq<Byte>, b: Byte)
    ensures Accumulate(m + [b]) == Mix(Accumulate(m), b)
  {
    assert (m + [b])[..|m + [b]| - 1] == m;
  }

  /** The fold over a concatenation continues from the fold over the first
      part: Accumulate(a + b) is determined by Accumulate(a) and b. */
  function AccumulateFrom(start: bv32, m: seq<Byte>): bv32
    decreases |m|
  {
    if m == [] then start else AccumulateFrom(Mix(start, m[0]), m[1..])
  }

  /** The left fold written front to back agrees with the definition. */
  lemma {:induction false} AccumulateFromAgrees(a: seq<Byte>, b: seq<Byte>)
    ensures AccumulateFrom(Accumulate(a), b) == Accumulate(a + b)
    decreases |b|
  {
    if b == [] {
      assert a + b == a;
    } else {
      AccumulateAppend(a, b[0]);
      AccumulateFromAgrees(a + [b[0]], b[1..]);
      assert (a + [b[0]]) + b[1..] == a + b;
    }
  }

  /** The message "a", one byte. */
  const LetterA: seq<Byte> := [0x61]

  /** As written, the hash of "a" is 0xaf8f5f08, not the published 0xca2e9442. */
  lemma AsWrittenHashOfA()
    ensures JenkinsSpec(LetterA, 1) == 0xaf8f5f08
    ensures JenkinsSpec(LetterA, 1) != JenkinsOaatPublished(LetterA, 1)
  {
    assert LetterA[..1] == [0x61];
    assert LetterA[..1][..0] == [];
    assert Accumulate(LetterA[..1]) == Mix(0, 0x61);
    PublishedHashOfA();
  }

  /** The corrected hash reproduces the published value for "a". */
  lemma PublishedHashOfA()
    ensures JenkinsOaatPublished(LetterA, 1) == 0xca2e9442
  {
    assert LetterA[..1] == [0x61];
    assert LetterA[..1][..0] == [];
    assert Accumulate(LetterA[..1]) == Mix(0, 0x61);
  }
}
