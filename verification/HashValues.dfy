/**
 What the hash is, apart from the loops that compute it: a table entry is the remainder
 of its index in a carry-less division, and two names have the ids the repository expects.
 */
module HashValues {
  import opened StringHash

  // ----- polynomials over two elements, as bits of a 40-bit word

  function Wide(c: bv32): (r: bv40) {
    c as bv40
  }

  function Plus(a: bv40, b: bv40): (r: bv40) {
    a ^ b
  }

  function TimesX(a: bv40): (r: bv40) {
    a << 1
  }

  /** The generator, x^32 + x^26 + ... + 1, or nothing. */
  function Generator(taken: bool): (r: bv40) {
    if taken then 0x1_04c1_1db7 else 0
  }

  function Up(a: bv40, n: nat): (r: bv40)
    decreases n
  {
    if n == 0 then a else Up(TimesX(a), n - 1)
  }

  /** The carry-less product of the generator with `q`, whose highest bit comes first. */
  function Product(q: seq<bool>): (r: bv40) {
    if q == [] then 0 else Plus(Up(Generator(q[0]), |q| - 1), Product(q[1..]))
  }

  lemma RawAssociative(a: bv40, b: bv40, c: bv40)
    ensures (a ^ b) ^ c == a ^ (b ^ c)
  {
  }

  lemma RawZero(a: bv40)
    ensures a ^ 0 == a
  {
  }

  lemma PlusAssociative(a: bv40, b: bv40, c: bv40)
    ensures Plus(Plus(a, b), c) == Plus(a, Plus(b, c))
  {
    RawAssociative(a, b, c);
  }

  lemma PlusZero(a: bv40)
    ensures Plus(a, 0) == a
  {
    RawZero(a);
  }

  lemma TimesPlus(a: bv40, b: bv40)
    ensures TimesX(Plus(a, b)) == Plus(TimesX(a), TimesX(b))
  {
  }

  lemma {:induction false} UpPlus(a: bv40, b: bv40, n: nat)
    ensures Up(Plus(a, b), n) == Plus(Up(a, n), Up(b, n))
    decreases n
  {
    hide Plus, TimesX;
    if n > 0 {
      TimesPlus(a, b);
      UpPlus(TimesX(a), TimesX(b), n - 1);
    }
  }

  /** A shift round takes the generator off when the highest bit calls for it. */
  lemma RoundTakes(c: bv32)
    ensures Wide(Shift(c)) == Plus(TimesX(Wide(c)), Generator(HighBit(c)))
  {
    hide Shift, Wide, Plus, TimesX, Generator;
    if HighBit(c) {
      RoundTaken(c);
    } else {
      RoundFree(c);
    }
  }

  lemma RoundTaken(c: bv32)
    requires HighBit(c)
    ensures Wide(Shift(c)) == Plus(TimesX(Wide(c)), Generator(true))
  {
    TakenWide(c);
    hide Wide, Plus, TimesX, Generator, Xor, Double, HighBit;
  }

  lemma TakenWide(c: bv32)
    requires HighBit(c)
    ensures Wide(Xor(Double(c), POLY)) == Plus(TimesX(Wide(c)), Generator(true))
  {
    HighTaken(c);
  }

  lemma RoundFree(c: bv32)
    requires !HighBit(c)
    ensures Wide(Shift(c)) == Plus(TimesX(Wide(c)), Generator(false))
  {
    HighFree(c);
    assert Shift(c) == c << 1;
    RawZero((c as bv40) << 1);
  }

  lemma HighTaken(c: bv32)
    requires c & 0x80000000 != 0
    ensures ((c << 1) ^ POLY) as bv40 == ((c as bv40) << 1) ^ 0x1_04c1_1db7
  {
  }

  lemma HighFree(c: bv32)
    requires c & 0x80000000 == 0
    ensures (c << 1) as bv40 == (c as bv40) << 1
  {
  }

  /** `n` shift rounds divide by the generator: they leave the remainder of `c` times x^n. */
  lemma {:induction false} RoundsDivide(c: bv32, n: nat) returns (q: seq<bool>)
    ensures |q| == n && Plus(Up(Wide(c), n), Product(q)) == Wide(Rounds(c, n))
    decreases n
  {
    hide Shift, Wide, Plus, TimesX, Generator, HighBit;
    if n == 0 {
      PlusZero(Wide(c));
      return [];
    }
    var rest := RoundsDivide(Shift(c), n - 1);
    q := [HighBit(c)] + rest;
    assert q[1..] == rest;
    RoundTakes(c);
    UpPlus(TimesX(Wide(c)), Generator(HighBit(c)), n - 1);
    PlusAssociative(Up(TimesX(Wide(c)), n - 1), Up(Generator(HighBit(c)), n - 1), Product(rest));
  }

  lemma EightUp(i: bv32)
    requires Low(i) == i
    ensures Up(Wide(ToTop(i)), 8) == Wide(i) << 32
  {
    var a0 := Wide(ToTop(i));
    var a1 := TimesX(a0);
    var a2 := TimesX(a1);
    var a3 := TimesX(a2);
    var a4 := TimesX(a3);
    var a5 := TimesX(a4);
    var a6 := TimesX(a5);
    var a7 := TimesX(a6);
    EightTimes(i);
    hide TimesX, Wide, ToTop, Low, Up;
    UpStep(a0, 8);
    UpStep(a1, 7);
    UpStep(a2, 6);
    UpStep(a3, 5);
    UpStep(a4, 4);
    UpStep(a5, 3);
    UpStep(a6, 2);
    UpStep(a7, 1);
    UpStep(TimesX(a7), 0);
  }

  lemma EightTimes(i: bv32)
    requires Low(i) == i
    ensures TimesX(TimesX(TimesX(TimesX(TimesX(TimesX(TimesX(TimesX(Wide(ToTop(i)))))))))) == Wide(i) << 32
  {
  }

  lemma UpStep(a: bv40, n: nat)
    ensures n == 0 ==> Up(a, n) == a
    ensures n > 0 ==> Up(a, n) == Up(TimesX(a), n - 1)
  {
  }

  /** The table: entry `i` is the remainder of i * x^32 modulo the generator. */
  lemma EntryIsRemainder(i: bv32) returns (q: seq<bool>)
    requires Low(i) == i
    ensures |q| == 8 && Plus(Wide(i) << 32, Product(q)) == Wide(Entry(i))
  {
    EightUp(i);
    hide Rounds, Wide, Plus, Product, Up, ToTop;
    q := RoundsDivide(ToTop(i), 8);
  }

  // ----- names with known ids

  /** "a" */
  lemma SingleLetter()
    ensures Hash([0x61]) == 0xa864db20
  {
  }

  const GAME: seq<bv32> := [0x67, 0x61, 0x6d, 0x65]
  const DEF: seq<bv32> := [0x64, 0x65, 0x66, 0x2e]
  const ENTE: seq<bv32> := [0x45, 0x6e, 0x74, 0x65]
  const RGAM: seq<bv32> := [0x72, 0x47, 0x61, 0x6d]
  const EREQ: seq<bv32> := [0x65, 0x52, 0x45, 0x51]
  const EACK: seq<bv32> := [0x65, 0x41, 0x43, 0x4b]

  lemma Four(h: bv32, a: bv32, b: bv32, c: bv32, d: bv32)
    ensures HashFrom(h, [a, b, c, d]) == Next(Next(Next(Next(h, a), b), c), d)
  {
    hide Next;
    var h1 := Next(h, a);
    var h2 := Next(h1, b);
    assert [a, b, c, d][1..] == [b, c, d] && [b, c, d][1..] == [c, d] && [c, d][1..] == [d] && [d][1..] == [];
    assert HashFrom(h, [a, b, c, d]) == HashFrom(h1, [b, c, d]) == HashFrom(h2, [c, d]);
    var h3 := Next(h2, c);
    assert HashFrom(h2, [c, d]) == HashFrom(h3, [d]) == HashFrom(Next(h3, d), []);
  }

  lemma AfterGame()
    ensures HashFrom(0x00000000, GAME) == 0x20e5210e
  {
    Four(0x00000000, 0x67, 0x61, 0x6d, 0x65);
    hide HashFrom;
    assert Next(0x00000000, 0x67) == 0xb2e29692;
    assert Next(0xb2e29692, 0x61) == 0x84493946;
    assert Next(0x84493946, 0x6d) == 0xb3ec34b8;
    assert Next(0xb3ec34b8, 0x65) == 0x20e5210e;
  }

  lemma AfterDef()
    ensures HashFrom(0x20e5210e, DEF) == 0xa25c913e
  {
    Four(0x20e5210e, 0x64, 0x65, 0x66, 0x2e);
    hide HashFrom;
    assert Next(0x20e5210e, 0x64) == 0x830ff560;
    assert Next(0x830ff560, 0x65) == 0x1746649e;
    assert Next(0x1746649e, 0x66) == 0xafa756d5;
    assert Next(0xafa756d5, 0x2e) == 0xa25c913e;
  }

  lemma AfterEnte()
    ensures HashFrom(0xa25c913e, ENTE) == 0x5200de55
  {
    Four(0xa25c913e, 0x45, 0x6e, 0x74, 0x65);
    hide HashFrom;
    assert Next(0xa25c913e, 0x45) == 0xcb5d8a17;
    assert Next(0xcb5d8a17, 0x6e) == 0xc2b6b062;
    assert Next(0xc2b6b062, 0x74) == 0x56552072;
    assert Next(0x56552072, 0x65) == 0x5200de55;
  }

  lemma AfterRgam()
    ensures HashFrom(0x5200de55, RGAM) == 0x04d2ccff
  {
    Four(0x5200de55, 0x72, 0x47, 0x61, 0x6d);
    hide HashFrom;
    assert Next(0x5200de55, 0x72) == 0x8636e63b;
    assert Next(0x8636e63b, 0x47) == 0xd53eb065;
    assert Next(0xd53eb065, 0x61) == 0x13d1486c;
    assert Next(0x13d1486c, 0x6d) == 0x04d2ccff;
  }

  lemma AfterEreq()
    ensures HashFrom(0x04d2ccff, EREQ) == 0x28c2f4fb
  {
    Four(0x04d2ccff, 0x65, 0x52, 0x45, 0x51);
    hide HashFrom;
    assert Next(0x04d2ccff, 0x65) == 0x0a933f84;
    assert Next(0x0a933f84, 0x52) == 0x0b179564;
    assert Next(0x0b179564, 0x45) == 0x9ce9bcc2;
    assert Next(0x9ce9bcc2, 0x51) == 0x28c2f4fb;
  }

  lemma AfterEack()
    ensures HashFrom(0x04d2ccff, EACK) == 0x43980899
  {
    Four(0x04d2ccff, 0x65, 0x41, 0x43, 0x4b);
    hide HashFrom;
    assert Next(0x04d2ccff, 0x65) == 0x0a933f84;
    assert Next(0x0a933f84, 0x41) == 0x4a4568cd;
    assert Next(0x4a4568cd, 0x43) == 0x55c8058c;
    assert Next(0x55c8058c, 0x4b) == 0x43980899;
  }

  /** gamedef.EnterGameREQ and gamedef.EnterGameACK */
  lemma EnterGame()
    ensures Hash(GAME + (DEF + (ENTE + (RGAM + EREQ)))) == 0x28c2f4fb
    ensures Hash(GAME + (DEF + (ENTE + (RGAM + EACK)))) == 0x43980899
  {
    Common(EREQ);
    Common(EACK);
    hide HashFrom;
    AfterEreq();
    AfterEack();
  }

  lemma Common(last: seq<bv32>)
    ensures Hash(GAME + (DEF + (ENTE + (RGAM + last)))) == HashFrom(0x04d2ccff, last)
  {
    hide HashFrom;
    AfterGame();
    AfterDef();
    AfterEnte();
    AfterRgam();
    HashAppend(0, GAME, DEF + (ENTE + (RGAM + last)));
    HashAppend(0x20e5210e, DEF, ENTE + (RGAM + last));
    HashAppend(0xa25c913e, ENTE, RGAM + last);
    HashAppend(0x5200de55, RGAM, last);
  }
}
