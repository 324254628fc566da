/** The per-string cipher of the archive's text tables: each string is a run of
    16-bit code units XORed with a keystream that starts at a seed and rotates
    the 16-bit word left by three bits per code unit. After decryption the
    string loses its leading and trailing NULs and two private-use code units
    are replaced by the gender signs. Strings are sequences of 16-bit code
    units: each unit is one character, surrogate pairs are not combined. */
module TextCodec {

  type Text = seq<bv16>

  const FemaleSignIn: bv16 := 0xE08F
  const MaleSignIn: bv16 := 0xE08E
  const FemaleSign: bv16 := 0x2640
  const MaleSign: bv16 := 0x2642

  /** One step of the key generator: `((key << 3) & 0xffff) | (key >> 13)`;
      on a 16-bit word the mask is the word's own width. The step is a left
      rotation of the word by three bits. */
  function Rotate(key: bv16): (r: bv16)
    ensures r == key.RotateLeft(3)
  {
    (key << 3) | (key >> 13)
  }

  /** Element `i` of the keystream that starts at `seed`. */
  function KeyAt(seed: bv16, i: nat): bv16
  {
    if i == 0 then seed else Rotate(KeyAt(seed, i - 1))
  }

  /** Going `i + j` steps from the seed is going `j` steps from element `i`. */
  lemma {:induction false} KeyAtShift(seed: bv16, i: nat, j: nat)
    ensures KeyAt(seed, i + j) == KeyAt(KeyAt(seed, i), j)
  {
    if j > 0 {
      KeyAtShift(seed, i, j - 1);
    }
  }

  /** Four steps of the keystream, written out. */
  lemma KeyAtFour(key: bv16)
    ensures KeyAt(key, 4) == Rotate(Rotate(Rotate(Rotate(key))))
  {
    assert KeyAt(key, 1) == Rotate(key);
    assert KeyAt(key, 2) == Rotate(KeyAt(key, 1));
    assert KeyAt(key, 3) == Rotate(KeyAt(key, 2));
  }

  /** Sixteen rotations by three bits are 48 bits, three whole turns. */
  lemma FullTurn(key: bv16)
    ensures KeyAt(key, 16) == key
  {
    var k4 := KeyAt(key, 4);
    var k8 := KeyAt(k4, 4);
    var k12 := KeyAt(k8, 4);
    KeyAtShift(key, 4, 4);
    KeyAtShift(key, 8, 4);
    KeyAtShift(key, 12, 4);
    KeyAtFour(key);
    KeyAtFour(k4);
    KeyAtFour(k8);
    KeyAtFour(k12);
  }

  /** The keystream starts with the seed and repeats with period 16. */
  lemma KeyPeriod(seed: bv16, i: nat)
    ensures KeyAt(seed, 0) == seed
    ensures KeyAt(seed, i + 16) == KeyAt(seed, i)
  {
    KeyAtShift(seed, i, 16);
    FullTurn(KeyAt(seed, i));
  }

  /** Code unit `i` XORed with keystream element `i`: decryption, and, the
      operation being its own inverse, encryption. */
  function Crypt(codes: seq<bv16>, seed: bv16): (r: seq<bv16>)
    ensures |r| == |codes|
  {
    seq(|codes|, i requires 0 <= i < |codes| => codes[i] ^ KeyAt(seed, i))
  }

  /** Encrypting and then decrypting with the same seed gives back the text. */
  lemma CryptInvolution(codes: seq<bv16>, seed: bv16)
    ensures Crypt(Crypt(codes, seed), seed) == codes
  {
    var once := Crypt(codes, seed);
    forall i | 0 <= i < |codes|
      ensures Crypt(once, seed)[i] == codes[i]
    {
      assert once[i] == codes[i] ^ KeyAt(seed, i);
    }
  }

  /** Number of NULs at the front of `s`. */
  function LeadingNuls(s: Text): (a: nat)
    ensures a <= |s|
    ensures forall i :: 0 <= i < a ==> s[i] == 0
    ensures a < |s| ==> s[a] != 0
  {
    if |s| > 0 && s[0] == 0 then 1 + LeadingNuls(s[1..]) else 0
  }

  /** Length of `s` without its trailing NULs. */
  function WithoutTrailingNuls(s: Text): (b: nat)
    ensures b <= |s|
    ensures forall i :: b <= i < |s| ==> s[i] == 0
    ensures b > 0 ==> s[b - 1] != 0
  {
    if |s| > 0 && s[|s| - 1] == 0 then WithoutTrailingNuls(s[..|s| - 1]) else |s|
  }

  /** `str.strip("\x00")`: the text with its NULs removed from both ends.
      The result is the infix of `s` between a run of NULs at the front and a
      run of NULs at the back, and it neither starts nor ends with a NUL. */
  function StripNuls(s: Text): (r: Text)
    ensures |r| <= |s|
    ensures r == [] || (r[0] != 0 && r[|r| - 1] != 0)
    ensures LeadingNuls(s) + |r| <= |s|
    ensures r == s[LeadingNuls(s)..LeadingNuls(s) + |r|]
    ensures forall i :: 0 <= i < |s| && !(LeadingNuls(s) <= i < LeadingNuls(s) + |r|) ==> s[i] == 0
  {
    var a, b := LeadingNuls(s), WithoutTrailingNuls(s);
    if b <= a then [] else s[a..b]
  }

  /** A text that neither starts nor ends with a NUL is left as it is. */
  lemma StripNulsKeeps(s: Text)
    requires s == [] || (s[0] != 0 && s[|s| - 1] != 0)
    ensures StripNuls(s) == s
  {
    assert LeadingNuls(s) == 0;
    assert WithoutTrailingNuls(s) == |s|;
  }

  /** The symbol correction: the two private-use code units become the
      female and male signs; every other unit is left alone. */
  function FixSymbol(c: bv16): (r: bv16)
    ensures c != FemaleSignIn && c != MaleSignIn ==> r == c
  {
    if c == FemaleSignIn then FemaleSign
    else if c == MaleSignIn then MaleSign
    else c
  }

  /** `str.translate` with the symbol correction: one unit in, one unit out. */
  function FixSymbols(s: Text): (r: Text)
    ensures |r| == |s|
    ensures forall i :: 0 <= i < |s| ==> r[i] == FixSymbol(s[i])
  {
    seq(|s|, i requires 0 <= i < |s| => FixSymbol(s[i]))
  }

  /** The text has none of the two private-use codes for the gender signs. */
  predicate NoSymbolCodes(s: Text)
  {
    forall i :: 0 <= i < |s| ==> s[i] != FemaleSignIn && s[i] != MaleSignIn
  }

  /** The whole decoding of one string from its encrypted code units. */
  function Decode(codes: seq<bv16>, seed: bv16): (r: Text)
    ensures |r| <= |codes|
  {
    FixSymbols(StripNuls(Crypt(codes, seed)))
  }

  /** A text without NULs at its ends and without the two private-use units,
      encrypted with a seed and decoded with the same seed, comes back
      unchanged. */
  lemma DecodeRoundTrip(plain: Text, seed: bv16)
    requires plain == [] || (plain[0] != 0 && plain[|plain| - 1] != 0)
    requires NoSymbolCodes(plain)
    ensures Decode(Crypt(plain, seed), seed) == plain
  {
    CryptInvolution(plain, seed);
    StripNulsKeeps(plain);
  }
}
