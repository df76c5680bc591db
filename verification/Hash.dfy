/**
  The string hash of the key-value store: 32-bit unsigned arithmetic over C chars.
  A char stands for the byte with its code, and is signed in arithmetic.
  */
module Hash {
  const WORD := 0x1_0000_0000
  const DEFAULT_HASH_SIZE := 1024

  /** The value of a char in C arithmetic where char is signed: that of its low byte. */
  function CharValue(c: char): int {
    var b := c as int % 256;
    if b < 128 then b else b - 256
  }

  /** One turn of the loop: shift left by five and add, both modulo 2^32. */
  function Turn(h: nat, c: char): (r: nat)
    ensures r < WORD
  {
    ((h * 32) % WORD + CharValue(c)) % WORD
  }

  function HashWord(key: string): (h: nat)
    ensures h < WORD
  {
    if key == [] then 0 else Turn(HashWord(key[..|key| - 1]), key[|key| - 1])
  }

  /** The bucket of a key. */
  function HashOf(key: string, hashSize: nat): (i: nat)
    requires hashSize > 0
    ensures i < hashSize
  {
    HashWord(key) % hashSize
  }

  method ComputeHash(key: string, hashSize: nat) returns (index: nat)
    requires hashSize > 0
    ensures index == HashOf(key, hashSize)
  {
    var hash := 0;
    var i := 0;
    while i < |key|
      invariant 0 <= i <= |key| && hash == HashWord(key[..i])
    {
      assert key[..i + 1][..i] == key[..i];
      hash := ((hash * 32) % WORD + CharValue(key[i])) % WORD;
      i := i + 1;
    }
    assert key[..i] == key;
    index := hash % hashSize;
  }

  // ------------------------------------------------------- the hash as a polynomial

  /** The key read as a number in base 32, its first char most significant. */
  function Poly(key: string): int {
    if key == [] then 0 else Poly(key[..|key| - 1]) * 32 + CharValue(key[|key| - 1])
  }

  function Pow32(n: nat): nat {
    if n == 0 then 1 else Pow32(n - 1) * 32
  }

  lemma ModTurn(x: int, c: int)
    ensures (((x % WORD) * 32) % WORD + c) % WORD == (x * 32 + c) % WORD
  {
  }

  lemma {:induction false} HashIsPoly(key: string)
    ensures HashWord(key) == Poly(key) % WORD
  {
    if key != [] {
      HashIsPoly(key[..|key| - 1]);
      ModTurn(Poly(key[..|key| - 1]), CharValue(key[|key| - 1]));
    }
  }

  lemma {:induction false} PolySplit(p: string, s: string)
    ensures Poly(p + s) == Poly(p) * Pow32(|s|) + Poly(s)
  {
    if s == [] {
      assert p + s == p;
    } else {
      var n := |s| - 1;
      assert (p + s)[..|p + s| - 1] == p + s[..n];
      PolySplit(p, s[..n]);
    }
  }

  lemma SmallPowers()
    ensures Pow32(2) == DEFAULT_HASH_SIZE && Pow32(7) == 8 * WORD
  {
    assert Pow32(2) == 32 * 32;
    assert Pow32(4) == Pow32(2) * 1024;
    assert Pow32(6) == Pow32(4) * 1024;
  }

  lemma SevenDecide(p: string, s: string)
    requires |s| == 7
    ensures Poly(p + s) % WORD == Poly(s) % WORD
  {
    PolySplit(p, s);
    SmallPowers();
    assert Poly(p + s) == (8 * Poly(p)) * WORD + Poly(s);
  }

  lemma TwoDecide(p: string, s: string)
    requires |s| == 2
    ensures Poly(p + s) % DEFAULT_HASH_SIZE == Poly(s) % DEFAULT_HASH_SIZE
  {
    PolySplit(p, s);
    SmallPowers();
    assert Poly(p + s) == Poly(p) * DEFAULT_HASH_SIZE + Poly(s);
    ModMultiple(Poly(p), Poly(s));
  }

  lemma ModMultiple(a: int, b: int)
    ensures (a * DEFAULT_HASH_SIZE + b) % DEFAULT_HASH_SIZE == b % DEFAULT_HASH_SIZE
  {
  }

  /** The last seven chars alone decide the bucket, whatever the table size. */
  lemma LastSevenChars(p: string, q: string, s: string, hashSize: nat)
    requires |s| == 7 && hashSize > 0
    ensures HashOf(p + s, hashSize) == HashOf(q + s, hashSize)
  {
    HashIsPoly(p + s);
    HashIsPoly(q + s);
    SevenDecide(p, s);
    SevenDecide(q, s);
  }

  lemma ModMod(x: int)
    ensures (x % WORD) % DEFAULT_HASH_SIZE == x % DEFAULT_HASH_SIZE
  {
  }

  /** In the default table the last two chars alone decide it. */
  lemma LastTwoChars(p: string, q: string, s: string)
    requires |s| == 2
    ensures HashOf(p + s, DEFAULT_HASH_SIZE) == HashOf(q + s, DEFAULT_HASH_SIZE)
  {
    HashIsPoly(p + s);
    HashIsPoly(q + s);
    ModMod(Poly(p + s));
    ModMod(Poly(q + s));
    TwoDecide(p, s);
    TwoDecide(q, s);
  }

  // ---------------------------------------------------------- in terms of char codes

  /** The key as a number in base 32 whose digits are the codes of its bytes, those from 128 on taken as negative. */
  function SignedNumber(key: string): int {
    if key == "" then 0
    else
      var code := key[|key| - 1] as int;
      SignedNumber(key[..|key| - 1]) * 32 + if code < 128 then code else code - 256
  }

  lemma {:induction false} HashIsSignedNumber(key: string)
    requires forall i | 0 <= i < |key| :: key[i] as int < 256
    ensures HashWord(key) == SignedNumber(key) % 4294967296
  {
    HashIsPoly(key);
    PolyIsSignedNumber(key);
  }

  lemma {:induction false} PolyIsSignedNumber(key: string)
    requires forall i | 0 <= i < |key| :: key[i] as int < 256
    ensures Poly(key) == SignedNumber(key)
  {
    if key != "" { PolyIsSignedNumber(key[..|key| - 1]); }
  }

  /** The bucket of a key of one byte. */
  lemma {:induction false} BucketOfOneByte(c: char, hashSize: nat)
    requires hashSize > 0 && c as int < 256
    ensures HashOf([c], hashSize) == (if c as int < 128 then c as int else c as int + 4294967040) % hashSize
  {
    assert [c][..0] == "";
    assert SignedNumber([c]) == if c as int < 128 then c as int else c as int - 256;
    HashIsSignedNumber([c]);
  }

  /** And of two bytes of ASCII. */
  lemma {:induction false} BucketOfTwoBytes(b: char, c: char, hashSize: nat)
    requires hashSize > 0 && b as int < 128 && c as int < 128
    ensures HashOf([b, c], hashSize) == (32 * b as int + c as int) % hashSize
  {
    NumberOfTwoBytes(b, c);
    HashIsSignedNumber([b, c]);
    SmallHash(32 * b as int + c as int);
  }

  lemma {:induction false} NumberOfTwoBytes(b: char, c: char)
    requires b as int < 128 && c as int < 128
    ensures SignedNumber([b, c]) == 32 * b as int + c as int
  {
    var s := [b, c];
    assert s[..1] == [b] && [b][..0] == "";
    assert SignedNumber([b]) == b as int;
    assert SignedNumber(s[..1]) == b as int;
  }

  lemma SmallHash(n: nat)
    requires n < 4294967296
    ensures n % 4294967296 == n
  {
  }
}
