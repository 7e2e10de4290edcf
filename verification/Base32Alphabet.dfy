// Letter by letter what base 32 gives: arithmetic on the bytes and the alphabet of section 6 of RFC 4648 in lower case.
module Base32Alphabet {
  import opened Base32
  import opened BitStrings

  const ALPHABET: string := "abcdefghijklmnopqrstuvwxyz234567"

  // 2 to the k.
  function Weight(k: nat): (r: nat)
    requires k < 8
    ensures r > 0
  {
    match k
    case 0 => 1
    case 1 => 2
    case 2 => 4
    case 3 => 8
    case 4 => 16
    case 5 => 32
    case 6 => 64
    case _ => 128
  }

  // The i-th bit of the bytes, the most significant one of each byte first, and zeros behind them.
  function InputBit(s: seq<Byte>, i: nat): nat {
    if i / 8 < |s| then s[i / 8] as nat / Weight(7 - i % 8) % 2 else 0
  }

  function InputBits(s: seq<Byte>): nat -> nat {
    i => InputBit(s, i)
  }

  // The place of a letter in the alphabet; whatever else is accepted counts as zero.
  function LetterValue(c: Byte): (d: nat)
    ensures d < 32 && (c in ALPHABET ==> ALPHABET[d] == c) && (c !in ALPHABET ==> d == 0)
  {
    InAlphabet(c);
    if 'a' <= c <= 'z' then c as nat - 'a' as nat else if '2' <= c <= '7' then c as nat - '2' as nat + 26 else 0
  }

  // The i-th bit of the letters, five from each.
  function LetterBit(s: seq<Byte>, i: nat): nat {
    if i / 5 < |s| then LetterValue(s[i / 5]) / Weight(4 - i % 5) % 2 else 0
  }

  function LetterBits(s: seq<Byte>): nat -> nat {
    i => LetterBit(s, i)
  }

  // The number that n bits make, from the i-th on.
  function Number(bit: nat -> nat, i: nat, n: nat): nat {
    if n == 0 then 0 else 2 * Number(bit, i, n - 1) + bit(i + n - 1)
  }

  // ---- The alphabet ----

  lemma AlphabetAt(d: nat)
    requires d < 32
    ensures ALPHABET[d] as nat == if d < 26 then 'a' as nat + d else '2' as nat + (d - 26)
  {
  }

  lemma InAlphabet(c: char)
    ensures c in ALPHABET <==> 'a' <= c <= 'z' || '2' <= c <= '7'
    ensures 'a' <= c <= 'z' ==> ALPHABET[c as nat - 'a' as nat] == c
    ensures '2' <= c <= '7' ==> ALPHABET[c as nat - '2' as nat + 26] == c
  {
    if 'a' <= c <= 'z' {
      AlphabetAt(c as nat - 'a' as nat);
    } else if '2' <= c <= '7' {
      AlphabetAt(c as nat - '2' as nat + 26);
    }
    if c in ALPHABET {
      var d :| 0 <= d < |ALPHABET| && ALPHABET[d] == c;
      AlphabetAt(d);
    }
  }

  // The decoder's table: the place in the alphabet, and 127 but for NUL and the last eight bytes, which are zeros.
  lemma TableIsAlphabet(c: Byte)
    ensures DecodeTable(c) ==
      if c in ALPHABET then LetterValue(c) else if c == '\0' || c as nat >= 248 then 0 else 127
  {
    InAlphabet(c);
  }

  // So not the alphabet alone is accepted.
  lemma AcceptedBytes(s: seq<Byte>)
    ensures Accepted(s) <==> forall i :: 0 <= i < |s| ==> s[i] in ALPHABET || s[i] == '\0' || s[i] as nat >= 248
  {
    forall i | 0 <= i < |s|
      ensures DecodeTable(s[i]) < 32 <==> s[i] in ALPHABET || s[i] == '\0' || s[i] as nat >= 248
    {
      TableIsAlphabet(s[i]);
    }
  }

  // ---- Bits ----

  lemma {:induction false} BitOf(v: nat, n: nat, k: nat)
    requires k < n
    ensures ToBits(v, n)[k] <==> Shr(v, n - 1 - k) % 2 == 1
    decreases n
  {
    if k < n - 1 {
      BitOf(v / 2, n - 1, k);
    }
  }

  lemma HalfFirst(v: nat, k: nat)
    requires 0 < k < 8
    ensures v / 2 / Weight(k - 1) == v / Weight(k)
  {
  }

  lemma {:induction false} ShrIsDivision(v: nat, k: nat)
    requires k < 8
    ensures Shr(v, k) == v / Weight(k)
    decreases k
  {
    if k > 0 {
      ShrIsDivision(v / 2, k - 1);
      HalfFirst(v, k);
    }
  }

  lemma {:induction false} GroupedBit(ds: seq<nat>, w: nat, q: nat, r: nat)
    requires q < |ds| && r < w
    ensures Times(q, w) + r < Times(|ds|, w) && Undigits(ds, w)[Times(q, w) + r] == ToBits(ds[q], w)[r]
    decreases q
  {
    if q > 0 {
      GroupedBit(ds[1..], w, q - 1, r);
      assert Undigits(ds, w) == ToBits(ds[0], w) + Undigits(ds[1..], w);
      assert Times(q, w) + r == w + (Times(q - 1, w) + r);
    }
  }

  function One(b: bool): nat {
    if b then 1 else 0
  }

  // ---- Encoding ----

  // Where the i-th bit stands, in groups of w.
  lemma BitInGroup(ds: seq<nat>, w: nat, q: nat, r: nat, i: nat)
    requires q < |ds| && r < w <= 8 && i == q * w + r
    ensures i < |Undigits(ds, w)| && One(Undigits(ds, w)[i]) == ds[q] / Weight(w - 1 - r) % 2
  {
    TimesIsProduct(q, w);
    GroupedBit(ds, w, q, r);
    BitOf(ds[q], w, r);
    ShrIsDivision(ds[q], w - 1 - r);
    Parity(ds[q] / Weight(w - 1 - r));
  }

  lemma Parity(x: nat)
    ensures One(x % 2 == 1) == x % 2
  {
  }

  lemma FilledBit(s: seq<Byte>, i: nat)
    requires i < |Filled(Undigits(Codes(s), 8))|
    ensures One(Filled(Undigits(Codes(s), 8))[i]) == InputBit(s, i)
  {
    var bits := Undigits(Codes(s), 8);
    TimesIsProduct(|s|, 8);
    if i / 8 < |s| {
      BitInGroup(Codes(s), 8, i / 8, i % 8, i);
      assert Filled(bits)[i] == bits[i];
    } else {
      assert |bits| <= i && Filled(bits)[i] == Zeros(|Filled(bits)| - |bits|)[i - |bits|];
    }
  }

  lemma {:induction false} NumberIsValue(bits: seq<bool>, bit: nat -> nat, i: nat, n: nat)
    requires i + n <= |bits| && forall k :: 0 <= k < |bits| ==> One(bits[k]) == bit(k)
    ensures Value(bits[i..i + n]) == Number(bit, i, n)
    decreases n
  {
    if n > 0 {
      NumberIsValue(bits, bit, i, n - 1);
      assert bits[i..i + n][..n - 1] == bits[i..i + (n - 1)];
    }
  }

  // The j-th letter is the one whose number five bits of the input make, from the 5j-th on.
  lemma EncodedLetter(s: seq<Byte>, j: nat)
    requires j < |Encoded(s)|
    ensures Number(InputBits(s), 5 * j, 5) < 32 && Encoded(s)[j] == ALPHABET[Number(InputBits(s), 5 * j, 5)]
  {
    var d := LetterOf(s, j);
    AlphabetAt(d);
  }

  lemma LetterOf(s: seq<Byte>, j: nat) returns (d: nat)
    requires j < |Encoded(s)|
    ensures d == Number(InputBits(s), 5 * j, 5) < 32 && Encoded(s)[j] == Letter(d)
  {
    var bits := Filled(Undigits(Codes(s), 8));
    FiveBits(bits);
    TimesIsProduct(j, 5);
    GroupAt(bits, 5, j, 5 * j);
    forall i | 0 <= i < |bits| ensures One(bits[i]) == InputBits(s)(i) {
      FilledBit(s, i);
    }
    NumberIsValue(bits, InputBits(s), 5 * j, 5);
    d := Digits(bits, 5)[j];
    assert Pow2(5) == 32;
  }

  // ---- Decoding ----

  lemma ReadBit(s: seq<Byte>, i: nat)
    requires Accepted(s) && i < 5 * |s|
    ensures i < |Undigits(Values(s), 5)| && One(Undigits(Values(s), 5)[i]) == LetterBit(s, i)
  {
    BitInGroup(Values(s), 5, i / 5, i % 5, i);
    TableIsAlphabet(s[i / 5]);
  }

  // As many bytes as there are eights of bits; bits left over are dropped.
  lemma DecodedLength(s: seq<Byte>)
    requires Accepted(s)
    ensures |Decoded(s)| == 5 * |s| / 8 && |Undigits(Values(s), 5)| == 5 * |s|
  {
    TimesIsProduct(|s|, 5);
    EightBits(Undigits(Values(s), 5));
  }

  lemma Eights(j: nat, n: nat)
    requires 8 * j + 8 <= n
    ensures j < n / 8
  {
  }

  // The j-th byte is the number that eight bits of the letters make, from the 8j-th on.
  lemma DecodedByte(s: seq<Byte>, j: nat)
    requires Accepted(s) && 8 * j + 8 <= 5 * |s|
    ensures j < |Decoded(s)| && Decoded(s)[j] as nat == Number(LetterBits(s), 8 * j, 8)
  {
    DecodedLength(s);
    Eights(j, 5 * |s|);
    ByteIsGroup(s, j);
    var bits := Undigits(Values(s), 5);
    forall i | 0 <= i < |bits| ensures One(bits[i]) == LetterBits(s)(i) {
      ReadBit(s, i);
    }
    NumberIsValue(bits, LetterBits(s), 8 * j, 8);
  }

  lemma ByteIsGroup(s: seq<Byte>, j: nat)
    requires Accepted(s) && j < |Decoded(s)| && 8 * j + 8 <= |Undigits(Values(s), 5)|
    ensures Decoded(s)[j] as nat == Value(Undigits(Values(s), 5)[8 * j..8 * j + 8])
  {
    TimesIsProduct(j, 8);
    EightBits(Undigits(Values(s), 5));
    GroupAt(Undigits(Values(s), 5), 8, j, 8 * j);
  }
}
