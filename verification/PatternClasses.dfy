/** The escapes of Lua patterns as the ranges of bytes they stand for (Lua 5.1 manual, section 5.4.1). */
module PatternClasses {
  import opened Exact
  import opened Bits
  import opened Patterns

  predicate IsUpper(c: nat) { 65 <= c <= 90 }

  predicate IsLower(c: nat) { 97 <= c <= 122 }

  predicate IsPunctuation(c: nat) { 33 <= c <= 47 || 58 <= c <= 64 || 91 <= c <= 96 || 123 <= c <= 126 }

  /** The bytes of the class named by a lower-case letter; of any other letter itself. */
  predicate InClass(letter: char, c: nat) {
    match letter
    case 'a' => IsUpper(c) || IsLower(c)
    case 'c' => c <= 31 || c == 127
    case 'd' => 48 <= c <= 57
    case 'g' => 33 <= c <= 126
    case 'l' => IsLower(c)
    case 'p' => IsPunctuation(c)
    case 's' => 9 <= c <= 13 || c == 32
    case 'u' => IsUpper(c)
    case 'w' => IsUpper(c) || IsLower(c) || 48 <= c <= 57
    case 'x' => 48 <= c <= 57 || 65 <= c <= 70 || 97 <= c <= 102
    case _ => c == 0
  }

  const LETTERS: string := "acdglpsuwxz"

  lemma {:induction false} MaskOne(x: nat)
    ensures And(x, 1) == x % 2
  {
    assert And(x / 2, 0) == 0;
  }

  /** Doubling the mask asks for the next bit. */
  lemma {:induction false} MaskDoubled(x: nat, m: nat)
    requires m > 0 && (And(x / 2, m) != 0 <==> x / 2 / m % 2 == 1)
    ensures And(x, 2 * m) != 0 <==> x / (2 * m) % 2 == 1
  {
    AndDouble(x, m);
    DivDiv(x, 2, m);
  }

  lemma {:induction false} Mask2(x: nat)
    ensures And(x, 2) != 0 <==> x / 2 % 2 == 1
  {
    MaskOne(x / 2);
    MaskDoubled(x, 1);
  }

  lemma {:induction false} Mask4(x: nat)
    ensures And(x, 4) != 0 <==> x / 4 % 2 == 1
  {
    Mask2(x / 2);
    MaskDoubled(x, 2);
  }

  lemma {:induction false} Mask8(x: nat)
    ensures And(x, 8) != 0 <==> x / 8 % 2 == 1
  {
    Mask4(x / 2);
    MaskDoubled(x, 4);
  }

  lemma {:induction false} Mask16(x: nat)
    ensures And(x, 16) != 0 <==> x / 16 % 2 == 1
  {
    Mask8(x / 2);
    MaskDoubled(x, 8);
  }

  lemma {:induction false} Mask32(x: nat)
    ensures And(x, 32) != 0 <==> x / 32 % 2 == 1
  {
    Mask16(x / 2);
    MaskDoubled(x, 16);
  }

  lemma {:induction false} Mask64(x: nat)
    ensures And(x, 64) != 0 <==> x / 64 % 2 == 1
  {
    Mask32(x / 2);
    MaskDoubled(x, 32);
  }

  /** Masks without a common bit ask for the bits of either. */
  lemma {:induction false} MasksApart(x: nat, a: nat, b: nat)
    requires And(a, b) == 0
    ensures And(x, a + b) == And(x, a) + And(x, b)
    decreases a
  {
    if x > 0 && a > 0 && b > 0 {
      NotBothOdd(a, b);
      MasksApart(x / 2, a / 2, b / 2);
      OneOdd(x % 2, a % 2, b % 2);
    }
  }

  lemma {:induction false} NotBothOdd(a: nat, b: nat)
    requires a > 0 && b > 0 && And(a, b) == 0
    ensures And(a / 2, b / 2) == 0 && (a % 2 == 0 || b % 2 == 0)
    ensures (a + b) / 2 == a / 2 + b / 2 && (a + b) % 2 == a % 2 + b % 2
  {}

  lemma OneOdd(x: nat, a: nat, b: nat)
    ensures x * (a + b) == x * a + x * b
  {}

  lemma {:induction false} Control(c: nat)
    requires c < 256
    ensures And(CharBits(c), 1) != 0 <==> InClass('c', c)
  {
    MaskOne(CharBits(c));
  }

  lemma {:induction false} Space(c: nat)
    requires c < 256
    ensures And(CharBits(c), 2) != 0 <==> InClass('s', c)
  {
    Mask2(CharBits(c));
  }

  lemma {:induction false} Punctuation(c: nat)
    requires c < 256
    ensures And(CharBits(c), 4) != 0 <==> InClass('p', c)
  {
    Mask4(CharBits(c));
  }

  lemma {:induction false} Digit(c: nat)
    requires c < 256
    ensures And(CharBits(c), 8) != 0 <==> InClass('d', c)
  {
    Mask8(CharBits(c));
  }

  lemma {:induction false} Hexadecimal(c: nat)
    requires c < 256
    ensures And(CharBits(c), 16) != 0 <==> InClass('x', c)
  {
    Mask16(CharBits(c));
  }

  lemma {:induction false} Upper(c: nat)
    requires c < 256
    ensures And(CharBits(c), 32) != 0 <==> InClass('u', c)
  {
    Mask32(CharBits(c));
  }

  lemma {:induction false} Lower(c: nat)
    requires c < 256
    ensures And(CharBits(c), 64) != 0 <==> InClass('l', c)
  {
    Mask64(CharBits(c));
  }

  lemma {:induction false} Letter(c: nat)
    requires c < 256
    ensures And(CharBits(c), 96) != 0 <==> InClass('a', c)
  {
    assert And(32, 64) == 0;
    MasksApart(CharBits(c), 32, 64);
    Upper(c);
    Lower(c);
  }

  lemma {:induction false} Alphanumeric(c: nat)
    requires c < 256
    ensures And(CharBits(c), 104) != 0 <==> InClass('w', c)
  {
    assert And(96, 8) == 0;
    MasksApart(CharBits(c), 96, 8);
    Letter(c);
    Digit(c);
  }

  lemma {:induction false} Graphic(c: nat)
    requires c < 256
    ensures And(CharBits(c), 108) != 0 <==> InClass('g', c)
  {
    assert And(104, 4) == 0;
    MasksApart(CharBits(c), 104, 4);
    Alphanumeric(c);
    Punctuation(c);
  }

  lemma {:induction false} ClassMask(letter: char, c: nat)
    requires c < 256 && letter in LETTERS && letter != 'z'
    ensures 96 <= letter as nat < 128 && CLASS_MAP[letter as nat - 96] != 0
    ensures And(CharBits(c), CLASS_MAP[letter as nat - 96]) != 0 <==> InClass(letter, c)
  {
    match letter
    case 'c' => Control(c);
    case 's' => Space(c);
    case 'p' => Punctuation(c);
    case 'd' => Digit(c);
    case 'x' => Hexadecimal(c);
    case 'u' => Upper(c);
    case 'l' => Lower(c);
    case 'a' => Letter(c);
    case 'w' => Alphanumeric(c);
    case 'g' => Graphic(c);
  }

  /** The escape of a class letter accepts the bytes of its class, that of the upper-case letter the others. */
  lemma {:induction false} ClassMeaning(letter: char, c: nat)
    requires c < 256 && letter in LETTERS
    ensures MatchClass(c, letter as nat) <==> InClass(letter, c)
    ensures MatchClass(c, letter as nat - 32) <==> !InClass(letter, c)
  {
    if letter != 'z' {
      ClassMask(letter, c);
      var k := letter as nat - 96;
      assert (k + 96) % 32 == k && (k + 64) % 32 == k && (k + 96) / 32 % 2 == 1 && (k + 64) / 32 % 2 == 0;
    }
  }

  lemma {:induction false} MappedLetters(k: nat)
    requires k < 32 && CLASS_MAP[k] != 0
    ensures k == 1 || k == 3 || k == 4 || k == 7 || k == 12 || k == 16 || k == 19 || k == 21 || k == 23 || k == 24
  {}

  /** The bytes of the class letters in either case. */
  const CLASS_BYTES: set<nat> := {65, 97, 67, 99, 68, 100, 71, 103, 76, 108, 80, 112, 83, 115, 85, 117, 87, 119, 88,
      120, 90, 122}

  /** Any other escape accepts its own byte. */
  lemma {:induction false} EscapedByte(cl: nat, c: nat)
    requires cl !in CLASS_BYTES
    ensures MatchClass(c, cl) <==> c == cl
  {
    if 64 <= cl < 128 && CLASS_MAP[cl % 32] != 0 {
      MappedLetters(cl % 32);
    }
  }
}
