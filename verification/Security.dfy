/** Textbook RSA over 16-bit words (pagers-common/security.cpp): square-and-multiply in
    64-bit signed arithmetic, and word-by-word encryption into 32-bit cells. */
module Security {
  import opened NumberTheory

  newtype ushort = x: int | 0 <= x < 0x1_0000
  newtype uint = x: int | 0 <= x < 0x1_0000_0000
  newtype longlong = x: int | -0x8000_0000_0000_0000 <= x < 0x8000_0000_0000_0000

  const N: uint := 0x9050f681
  const E: uint := 0x10001
  const D: uint := 0xafe41a1d

  /** The largest modulus for which the product of two residues fits a long long. */
  const MAX_MODULUS: uint := 3037000500

  const PRIME_P: int := 48271
  const PRIME_Q: int := 50159

  ghost function PowerMod(x: int, y: int, p: int): int
    requires 0 <= y && 0 < p
  {
    Pow(x, y) % p
  }

  // ----- power

  lemma ProductMonotone(a: int, b: int, c: int)
    requires 0 <= a <= c && 0 <= b <= c
    ensures 0 <= a * b <= c * c
  {
    MulGrowsTogether(a, b, c);
    MulGrowsTogether(b, c, c);
  }

  lemma MulGrowsTogether(a: int, b: int, c: int)
    requires 0 <= a <= c && 0 <= b
    ensures 0 <= a * b <= c * b
  {
    NonNegativeProduct(a, b);
    NonNegativeProduct(c - a, b);
    assert c * b == a * b + (c - a) * b;
  }

  lemma ResidueProductFits(a: int, b: int, p: int)
    requires 0 <= a < p && 0 <= b < p && p <= MAX_MODULUS as int
    ensures 0 <= a * b < 0x8000_0000_0000_0000
  {
    ProductMonotone(a, b, 3037000499);
  }

  /** The bound is exact: one more, and the square of the top residue overflows. */
  lemma LargerModulusOverflows(p: int)
    requires MAX_MODULUS as int < p
    ensures (p - 1) * (p - 1) >= 0x8000_0000_0000_0000
  {
    assert (p - 1) * (p - 1) == 3037000500 * 3037000500 + (p - 3037000501) * (p - 1 + 3037000500);
  }

  lemma SquareStep(x: int, y: nat, m: int)
    requires 0 < m && 0 < y
    ensures y % 2 == 0 ==> Pow(x * x % m, y / 2) % m == Pow(x, y) % m
    ensures y % 2 == 1 ==> (x * Pow(x * x % m, y / 2)) % m == Pow(x, y) % m
  {
    var h := y / 2;
    var even := Pow(x, 2 * h);
    PowMul(x, 2, h);
    assert Pow(x, 2) == x * Pow(x, 1) && Pow(x, 1) == x;
    PowMod(x * x, h, m);
    if y % 2 == 1 {
      assert Pow(x, y) == x * even;
      MultiplyThrough(x, Pow(x * x % m, h), even, m);
    }
  }

  lemma MultiplyThrough(res: int, a: int, b: int, m: int)
    requires 0 < m && a % m == b % m
    ensures (res * a) % m == (res * b) % m
  {
    ModMul(a, res, m);
    ModMul(b, res, m);
  }

  lemma ReduceLeft(res: int, x: int, a: int, m: int)
    requires 0 < m
    ensures ((res * x % m) * a) % m == (res * (x * a)) % m
  {
    ModMul(res * x, a, m);
    MulAssociative(res, x, a);
  }

  /** One turn of the loop keeps res * x^y fixed modulo m. */
  lemma PowerStep(res: int, x: int, y: nat, m: int)
    requires 0 < m && 0 < y
    ensures y % 2 == 1 ==> ((res * x % m) * Pow(x * x % m, y / 2)) % m == (res * Pow(x, y)) % m
    ensures y % 2 == 0 ==> (res * Pow(x * x % m, y / 2)) % m == (res * Pow(x, y)) % m
  {
    var rest := Pow(x * x % m, y / 2);
    SquareStep(x, y, m);
    if y % 2 == 1 {
      MultiplyThrough(res, x * rest, Pow(x, y), m);
      ReduceLeft(res, x, rest, m);
    } else {
      MultiplyThrough(res, rest, Pow(x, y), m);
    }
  }

  /** What the routine answers: its shortcut for a zero base comes first, also for 0^0. */
  ghost function PowerResult(x: int, y: nat, p: int): int
    requires 0 < p
  {
    if x % p == 0 then 0 else PowerMod(x, y, p)
  }

  /** The answer is the power exactly when the exponent is positive, the base is not a
      multiple of p, or p is 1. */
  lemma PowerResultIsPower(x: int, y: nat, p: int)
    requires 0 < p
    ensures PowerResult(x, y, p) == PowerMod(x, y, p) <==> 0 < y || x % p != 0 || p == 1
  {
    if 0 < y {
      PowMod(x, y, p);
      ZeroPow(y);
    } else {
      assert Pow(x, y) == 1;
    }
  }

  lemma PowerDone(res: int, x: int, m: int)
    requires 0 <= res < m
    ensures (res * Pow(x, 0)) % m == res
  {
    QuotientUnique(res, m, 0, res);
  }

  /** A product of residues, in 64-bit signed arithmetic. */
  function MulMod(a: longlong, b: longlong, p: uint): (r: uint)
    requires 0 <= a < p as longlong && 0 <= b < p as longlong && p <= MAX_MODULUS
    ensures r as int == (a as int * b as int) % p as int
  {
    ResidueProductFits(a as int, b as int, p as int);
    ((a * b) % (p as longlong)) as uint
  }

  method Power(x0: longlong, y0: uint, p: uint) returns (res: uint)
    requires 0 <= x0 && 0 < p <= MAX_MODULUS
    ensures res < p && res as int == PowerResult(x0 as int, y0 as int, p as int)
  {
    ghost var m := p as int;
    ghost var target := PowerMod(x0 as int, y0 as int, m);
    PowMod(x0 as int, y0 as int, m);
    var x, y := x0 % (p as longlong), y0;
    res := 1;
    if x == 0 {
      return 0;
    }
    while y > 0
      invariant 0 <= x < p as longlong && res < p
      invariant (res as int * Pow(x as int, y as int)) % m == target
    {
      PowerStep(res as int, x as int, y as int, m);
      if y % 2 == 1 {
        res := MulMod(res as longlong, x, p);
      }
      y := y / 2;
      x := MulMod(x, x, p) as longlong;
    }
    PowerDone(res as int, x as int, m);
  }

  // ----- words

  ghost function EncryptWord(w: ushort): (c: uint)
    ensures c < N
  {
    PowerResult(w as int, D as int, N as int) as uint
  }

  /** The cast of the assignment to a 16-bit cell is part of the function. */
  ghost function DecryptWord(c: uint): ushort
  {
    (PowerResult(c as int, E as int, N as int) % 0x1_0000) as ushort
  }

  ghost function EncryptWords(words: seq<ushort>): seq<uint>
  {
    seq(|words|, i requires 0 <= i < |words| => EncryptWord(words[i]))
  }

  ghost function DecryptWords(cells: seq<uint>): seq<ushort>
  {
    seq(|cells|, i requires 0 <= i < |cells| => DecryptWord(cells[i]))
  }

  method CryptoEncrypt(len: nat, data: array<ushort>, enc: array<uint>)
    requires len <= data.Length && len <= enc.Length
    modifies enc
    ensures enc[..len] == EncryptWords(data[..len])
    ensures enc[len..] == old(enc[len..])
  {
    for i := 0 to len
      invariant forall j :: 0 <= j < i ==> enc[j] == EncryptWord(data[j])
      invariant enc[len..] == old(enc[len..])
    {
      enc[i] := Power(data[i] as longlong, D, N);
    }
  }

  method CryptoDecrypt(len: nat, data: array<ushort>, enc: array<uint>)
    requires len <= data.Length && len <= enc.Length
    modifies data
    ensures data[..len] == DecryptWords(enc[..len])
    ensures data[len..] == old(data[len..])
  {
    for i := 0 to len
      invariant forall j :: 0 <= j < i ==> data[j] == DecryptWord(enc[j])
      invariant data[len..] == old(data[len..])
    {
      var word := Power(enc[i] as longlong, E, N);
      data[i] := (word % 0x1_0000) as ushort;
    }
  }

  // ----- decryption undoes encryption

  lemma FactorsArePrime()
    ensures IsPrime(PRIME_P) && IsPrime(PRIME_Q)
    ensures PRIME_P * PRIME_Q == N as int
  {
    assert forall d :: 2 <= d < 224 ==> 48271 % d != 0;
    assert forall d :: 2 <= d < 224 ==> 50159 % d != 0;
    TrialDivision(48271, 224);
    TrialDivision(50159, 224);
  }

  lemma PowersCompose(w: int, e: nat, d: nat, m: int)
    requires 0 < m
    ensures PowerMod(PowerMod(w, d, m), e, m) == PowerMod(w, d * e, m)
  {
    PowMod(Pow(w, d), e, m);
    PowMul(w, d, e);
  }

  lemma KeysCancel(w: int, e: nat, d: nat)
    requires 0 <= w < N as int
    requires e == E as int && d == D as int
    ensures PowerMod(PowerMod(w, d, N as int), e, N as int) == w
  {
    FactorsArePrime();
    var s, t := 79879 * 50158, 79879 * 48270;
    assert d * e == 1 + s * (PRIME_P - 1) && d * e == 1 + t * (PRIME_Q - 1);
    PowersCompose(w, e, d, N as int);
    TwoPrimeExponent(w, PRIME_P, PRIME_Q, d * e, s, t);
  }

  /** Every 16-bit word survives, multiples of the prime factors included. */
  lemma DecryptUndoesEncrypt(w: ushort)
    ensures DecryptWord(EncryptWord(w)) == w
  {
    hide PowerMod, PowerResult;
    KeysCancel(w as int, E as int, D as int);
    PowerResultIsPower(w as int, D as int, N as int);
    PowerResultIsPower(EncryptWord(w) as int, E as int, N as int);
  }

  /** Which exponent is which: the private one encrypts, and the public one, 65537, alone undoes it. */
  lemma PublicExponentReads(w: ushort)
    ensures Pow(EncryptWord(w) as int, 65537) % 2421225089 == w as int
  {
    hide Pow, PowerResult;
    KeysCancel(w as int, E as int, D as int);
    PowerResultIsPower(w as int, D as int, N as int);
  }

  /** Whatever the cell, multiples of the prime factors included, decrypting raises it to the public
      exponent and keeps sixteen bits. */
  lemma DecryptIsPublic(c: uint)
    ensures DecryptWord(c) as int == Pow(c as int, 65537) % 2421225089 % 0x1_0000
  {
    hide Pow, PowerResult;
    PowerResultIsPower(c as int, E as int, N as int);
  }

  lemma DecryptUndoesEncryptWords(words: seq<ushort>)
    ensures DecryptWords(EncryptWords(words)) == words
  {
    forall i | 0 <= i < |words|
      ensures DecryptWords(EncryptWords(words))[i] == words[i]
    {
      DecryptUndoesEncrypt(words[i]);
    }
  }
}
