/** CRC-32, one bit at a time and one table lookup at a time. The word operations are named so that proofs about
    the recurrences need not look at bits. */
module Crc {
  import opened Bytes

  function Xor(a: bv32, b: bv32): bv32 { a ^ b }

  function Word(n: nat): bv32
    requires n < 256
  {
    n as bv32
  }

  /** One bitwise step of the reflected polynomial. */
  function Step(c: bv32): bv32 {
    if c & 1 != 0 then 0xEDB88320 ^ (c >> 1) else c >> 1
  }

  function Steps(c: bv32, k: nat): bv32
    decreases k
  {
    if k == 0 then c else Steps(Step(c), k - 1)
  }

  /** The reference update: fold the byte into the low bits, then eight bitwise steps. */
  function BitwiseUpdate(crc: bv32, b: byte): bv32 { Steps(Xor(crc, Word(b as nat)), BYTE_BITS) }

  predicate IsTable(table: seq<bv32>) {
    |table| == 256 && forall i | 0 <= i < 256 :: table[i] == Steps(Word(i), BYTE_BITS)
  }

  method BuildCrcTable() returns (table: array<bv32>)
    ensures fresh(table) && IsTable(table[..])
  {
    hide Step, Word;
    table := new bv32[256];
    var i := 0;
    while i < 256
      invariant 0 <= i <= 256
      invariant forall j | 0 <= j < i :: table[j] == Steps(Word(j), BYTE_BITS)
    {
      var c := Word(i);
      var k := 0;
      while k < 8
        invariant 0 <= k <= 8 && Steps(Word(i), BYTE_BITS) == Steps(c, BYTE_BITS - k)
      {
        c := Step(c);
        k := k + 1;
      }
      table[i] := c;
      i := i + 1;
    }
  }

  function LowByte(c: bv32): (n: nat)
    ensures n < 256
  {
    LowByteBound(c);
    (c & 0xFF) as int
  }

  function LowBits(c: bv32): bv32 { c & 0xFF }

  function DropByte(c: bv32): bv32 { c >> 8 }

  function HighBits(c: bv32): bv32 { c & 0xFFFF_FF00 }

  function TableUpdate(table: seq<bv32>, crc: bv32, b: byte): bv32
    requires |table| == 256
  {
    Xor(DropByte(crc), table[LowByte(Xor(crc, Word(b as nat)))])
  }

  lemma LowByteBound(c: bv32)
    ensures (c & 0xFF) as int < 256
  {}

  lemma XorShift(a: bv32, b: bv32)
    ensures (a ^ b) >> 1 == (a >> 1) ^ (b >> 1)
  {}

  lemma XorLowBit(a: bv32, b: bv32)
    ensures (a ^ b) & 1 == (a & 1) ^ (b & 1)
  {}

  lemma LowBit(a: bv32)
    ensures a & 1 == 0 || a & 1 == 1
  {}

  lemma XorCancels(p: bv32, a: bv32, b: bv32)
    ensures (p ^ a) ^ (p ^ b) == a ^ b && p ^ (a ^ b) == (p ^ a) ^ b && p ^ (a ^ b) == a ^ (p ^ b)
  {}

  lemma StepIsLinear(a: bv32, b: bv32)
    ensures Step(Xor(a, b)) == Xor(Step(a), Step(b))
  {
    XorShift(a, b);
    XorLowBit(a, b);
    LowBit(a);
    LowBit(b);
    XorCancels(0xEDB88320, a >> 1, b >> 1);
  }

  lemma {:induction false} StepsAreLinear(a: bv32, b: bv32, k: nat)
    ensures Steps(Xor(a, b), k) == Xor(Steps(a, k), Steps(b, k))
    decreases k
  {
    hide Step, Xor;
    if k > 0 {
      StepIsLinear(a, b);
      StepsAreLinear(Step(a), Step(b), k - 1);
    }
  }

  function EightSteps(c: bv32): bv32 { Step(Step(Step(Step(Step(Step(Step(Step(c)))))))) }

  lemma StepsUnrolled(c: bv32)
    ensures Steps(c, BYTE_BITS) == EightSteps(c)
  {
    hide Step;
    var n: nat := BYTE_BITS;
    var c1 := Step(c);
    var c2 := Step(c1);
    var c3 := Step(c2);
    var c4 := Step(c3);
    var c5 := Step(c4);
    var c6 := Step(c5);
    var c7 := Step(c6);
    var c8 := Step(c7);
    assert Steps(c, n) == Steps(c1, n - 1) == Steps(c2, n - 2) == Steps(c3, n - 3);
    assert Steps(c3, n - 3) == Steps(c4, n - 4) == Steps(c5, n - 5) == Steps(c6, n - 6);
    assert Steps(c6, n - 6) == Steps(c7, n - 7) == Steps(c8, n - 8);
  }

  // Zero low bits leave one by one.
  lemma TwoEven(c: bv32)
    requires c & 3 == 0
    ensures Step(Step(c)) == c >> 2
  {}

  function DropNibble(c: bv32): bv32 { c >> 4 }

  predicate ClearNibble(c: bv32) { c & 15 == 0 }

  lemma FourEven(c: bv32)
    requires ClearNibble(c)
    ensures Step(Step(Step(Step(c)))) == DropNibble(c)
  {
    hide Step;
    assert c & 3 == 0 && (c >> 2) & 3 == 0 && (c >> 2) >> 2 == c >> 4;
    TwoEven(c);
    TwoEven(c >> 2);
  }

  lemma TwoNibbles(c: bv32)
    ensures var h := HighBits(c);
            ClearNibble(h) && ClearNibble(DropNibble(h)) && DropNibble(DropNibble(h)) == DropByte(c)
  {}

  lemma EvenSteps(c: bv32)
    ensures EightSteps(HighBits(c)) == DropByte(c)
  {
    hide Step, HighBits, DropByte, DropNibble, ClearNibble;
    TwoNibbles(c);
    FourEven(HighBits(c));
    FourEven(DropNibble(HighBits(c)));
  }

  lemma SplitLowByte(crc: bv32, n: nat)
    requires n < 256
    ensures var x := Xor(crc, Word(n));
            x == Xor(HighBits(x), Word(LowByte(x))) && DropByte(x) == DropByte(crc)
  {
    hide Word, LowByte, HighBits, LowBits, DropByte, Xor;
    SmallWord(n);
    SplitWord(crc, Word(n));
    LowByteRoundTrip(Xor(crc, Word(n)));
  }

  lemma SmallWord(n: nat)
    requires n < 256
    ensures DropByte(Word(n)) == 0
  {}

  lemma SplitWord(crc: bv32, y: bv32)
    requires DropByte(y) == 0
    ensures var x := Xor(crc, y); x == Xor(HighBits(x), LowBits(x)) && DropByte(x) == DropByte(crc)
  {}

  lemma WordRoundTrip(m: bv32)
    ensures (m as int) as bv32 == m
  {}

  lemma LowByteRoundTrip(c: bv32)
    ensures Word(LowByte(c)) == LowBits(c)
  {
    WordRoundTrip(c & 0xFF);
  }

  /** The table step equals eight bitwise steps, for every state and byte. */
  lemma TableIsBitwise(table: seq<bv32>, crc: bv32, b: byte)
    requires IsTable(table)
    ensures TableUpdate(table, crc, b) == BitwiseUpdate(crc, b)
  {
    hide Xor, Word, Steps, Step, LowByte, LowBits, DropByte, HighBits, EightSteps;
    var x := Xor(crc, Word(b as nat));
    SplitLowByte(crc, b as nat);
    StepsAreLinear(HighBits(x), Word(LowByte(x)), BYTE_BITS);
    StepsUnrolled(HighBits(x));
    EvenSteps(x);
  }

  // ----- hashing -----

  /** The hasher state after a run of bytes. */
  function Update(crc: bv32, s: bytes): bv32 {
    if s == [] then crc else BitwiseUpdate(Update(crc, s[..|s| - 1]), s[|s| - 1])
  }

  lemma {:induction false} UpdateConcat(crc: bv32, a: bytes, b: bytes)
    ensures Update(crc, a + b) == Update(Update(crc, a), b)
  {
    hide BitwiseUpdate;
    if b == [] {
      assert a + b == a;
    } else {
      UpdateConcat(crc, a, b[..|b| - 1]);
      assert (a + b)[..|a + b| - 1] == a + b[..|b| - 1];
    }
  }

  const INIT: bv32 := 0xFFFF_FFFF

  function Finalize(state: bv32): bv32 { Xor(state, 0xFFFF_FFFF) }

  /** CRC-32 of a whole byte string. */
  function Hash(s: bytes): bv32 { Finalize(Update(INIT, s)) }

  // Eight steps of a word fold one byte of `w` into the state; the rest of `w` moves down.
  lemma FoldByte(x: bv32, w: bv32)
    ensures Steps(Xor(x, w), BYTE_BITS) == Xor(BitwiseUpdate(x, LowByte(w) as byte), DropByte(w))
  {
    hide Xor, Word, Steps, Step, LowByte, LowBits, DropByte, HighBits, EightSteps;
    LowByteRoundTrip(w);
    SplitInTwo(x, w);
    StepsAreLinear(Xor(x, LowBits(w)), HighBits(w), BYTE_BITS);
    StepsUnrolled(HighBits(w));
    EvenSteps(w);
  }

  lemma SplitInTwo(x: bv32, w: bv32)
    ensures Xor(x, w) == Xor(Xor(x, LowBits(w)), HighBits(w))
  {}

  /** The bytes of a word, least significant first. */
  function WordBytes(w: bv32): bytes {
    [LowByte(w) as byte, LowByte(DropByte(w)) as byte, LowByte(DropByte(DropByte(w))) as byte,
     LowByte(DropByte(DropByte(DropByte(w)))) as byte]
  }

  lemma FoldWord(x: bv32, w: bv32)
    ensures Update(x, WordBytes(w)) ==
              Steps(Steps(Steps(Steps(Xor(x, w), BYTE_BITS), BYTE_BITS), BYTE_BITS), BYTE_BITS)
  {
    hide Xor, Steps, LowByte, DropByte, BitwiseUpdate, Update;
    var s, w1, w2, w3 := WordBytes(w), DropByte(w), DropByte(DropByte(w)), DropByte(DropByte(DropByte(w)));
    var x1, x2, x3 := BitwiseUpdate(x, s[0]), BitwiseUpdate(BitwiseUpdate(x, s[0]), s[1]),
                      BitwiseUpdate(BitwiseUpdate(BitwiseUpdate(x, s[0]), s[1]), s[2]);
    FoldByte(x, w);
    FoldByte(x1, w1);
    FoldByte(x2, w2);
    FoldByte(x3, w3);
    NothingLeft(BitwiseUpdate(x3, s[3]), w);
    FourUpdates(x, s[0], s[1], s[2], s[3]);
  }

  lemma NothingLeft(y: bv32, w: bv32)
    ensures Xor(y, DropByte(DropByte(DropByte(DropByte(w))))) == y
  {
    assert DropByte(DropByte(DropByte(DropByte(w)))) == 0;
  }

  lemma FourUpdates(x: bv32, a: byte, b: byte, c: byte, e: byte)
    ensures Update(x, [a, b, c, e]) == BitwiseUpdate(BitwiseUpdate(BitwiseUpdate(BitwiseUpdate(x, a), b), c), e)
  {
    hide BitwiseUpdate;
    assert [a][..0] == [] && Update(x, [a]) == BitwiseUpdate(x, a);
    assert [a, b][..1] == [a] && Update(x, [a, b]) == BitwiseUpdate(BitwiseUpdate(x, a), b);
    assert [a, b, c][..2] == [a, b] && [a, b, c, e][..3] == [a, b, c];
  }

  lemma AllOnes()
    ensures Steps(0xFFFF_FFFF, BYTE_BITS) == 0x2DFD_1072 && Steps(0x2DFD_1072, BYTE_BITS) == 0xBE26_ED00
    ensures Steps(0xBE26_ED00, BYTE_BITS) == 0x00BE_26ED && Steps(0x00BE_26ED, BYTE_BITS) == 0xDEBB_20E3
  {
    StepsUnrolled(0xFFFF_FFFF); StepsUnrolled(0x2DFD_1072); StepsUnrolled(0xBE26_ED00); StepsUnrolled(0x00BE_26ED);
  }

  /** The residue of CRC-32: whatever is hashed, followed by its own hash, hashes to one constant. */
  lemma Residue(s: bytes)
    ensures Hash(s + WordBytes(Hash(s))) == 0x2144_DF1C
  {
    hide Steps, Update, WordBytes;
    var x := Update(INIT, s);
    UpdateConcat(INIT, s, WordBytes(Hash(s)));
    FoldWord(x, Hash(s));
    Cancelled(x);
    AllOnes();
  }

  lemma Cancelled(x: bv32)
    ensures Xor(x, Xor(x, 0xFFFF_FFFF)) == 0xFFFF_FFFF
  {}

  /** The table-driven hash of a byte string. */
  method HashWithTable(table: array<bv32>, s: bytes) returns (crc: bv32)
    requires table.Length == 256 && IsTable(table[..])
    ensures crc == Hash(s)
  {
    hide Xor, BitwiseUpdate, TableUpdate, IsTable;
    crc := INIT;
    for i := 0 to |s|
      invariant crc == Update(INIT, s[..i])
    {
      TableIsBitwise(table[..], crc, s[i]);
      assert s[..i + 1][..i] == s[..i];
      crc := TableUpdate(table[..], crc, s[i]);
    }
    assert s[..|s|] == s;
    crc := Finalize(crc);
  }
}
