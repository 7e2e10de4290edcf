// The loops of base32_encode and base32_decode against the bit strings of section 6 of RFC 4648, in lower case and
// without padding characters.
module Base32 {
  import opened BitStrings

  type Byte = c: char | c as int < 256 witness 'a'

  // ---- Section 6 of RFC 4648 ----

  function Letter(d: nat): Byte
    requires d < 32
  {
    if d < 26 then ('a' as int + d) as char else ('2' as int + (d - 26)) as char
  }

  function Codes(s: seq<Byte>): (r: seq<nat>)
    ensures |r| == |s| && Small(r, 8)
  {
    assert Pow2(8) == 256;
    seq(|s|, i requires 0 <= i < |s| => s[i] as int)
  }

  function Letters(ds: seq<nat>): (r: seq<Byte>)
    requires Small(ds, 5)
    ensures |r| == |ds|
  {
    assert Pow2(5) == 32;
    seq(|ds|, i requires 0 <= i < |ds| => Letter(ds[i]))
  }

  function Zeros(n: nat): seq<bool> {
    seq(n, _ => false)
  }

  // The bits of the input, filled up with zeros to a whole number of groups of five.
  function Filled(bits: seq<bool>): (r: seq<bool>)
    ensures |r| % 5 == 0 && |bits| <= |r| < |bits| + 5
  {
    bits + Zeros((5 - |bits| % 5) % 5)
  }

  lemma FiveBits(bits: seq<bool>)
    ensures Small(Digits(bits, 5), 5) && |Digits(bits, 5)| == |bits| / 5
  {
    TimesIsProduct(|bits| / 5, 5);
    DigitsCount(bits, 5, |bits| / 5);
  }

  lemma EightBits(bits: seq<bool>)
    ensures Small(Digits(bits, 8), 8) && |Digits(bits, 8)| == |bits| / 8
  {
    TimesIsProduct(|bits| / 8, 8);
    DigitsCount(bits, 8, |bits| / 8);
  }

  // Five bytes are eight groups.
  lemma WholeBlocks(q: nat)
    ensures Times(5 * q, 8) == Times(8 * q, 5)
  {
    TimesIsProduct(5 * q, 8);
    TimesIsProduct(8 * q, 5);
  }

  function Encoded(s: seq<Byte>): seq<Byte> {
    var bits := Filled(Undigits(Codes(s), 8));
    FiveBits(bits);
    Letters(Digits(bits, 5))
  }

  // ---- BASE32_LOW_DECODE ----

  // The table has one row of eight too few, so that its last eight entries are zeros.
  function DecodeTable(c: Byte): nat {
    if c == '\0' || c as int >= 248 then 0
    else if 'a' <= c <= 'z' then c as int - 'a' as int
    else if '2' <= c <= '7' then c as int - '2' as int + 26
    else 127
  }

  predicate Accepted(s: seq<Byte>) {
    forall i :: 0 <= i < |s| ==> DecodeTable(s[i]) < 32
  }

  function Values(s: seq<Byte>): (r: seq<nat>)
    requires Accepted(s)
    ensures |r| == |s| && Small(r, 5)
  {
    assert Pow2(5) == 32;
    seq(|s|, i requires 0 <= i < |s| => DecodeTable(s[i]))
  }

  function Chars(ds: seq<nat>): (r: seq<Byte>)
    requires Small(ds, 8)
    ensures |r| == |ds|
  {
    assert Pow2(8) == 256;
    seq(|ds|, i requires 0 <= i < |ds| => ds[i] as char)
  }

  // The groups of five as one bit string, read as bytes; what is left over is dropped.
  function Decoded(s: seq<Byte>): seq<Byte>
    requires Accepted(s)
  {
    var bits := Undigits(Values(s), 5);
    EightBits(bits);
    Chars(Digits(bits, 8))
  }

  // ---- Decoding undoes encoding ----

  lemma LettersAreAccepted(ds: seq<nat>)
    requires Small(ds, 5)
    ensures Accepted(Letters(ds)) && Values(Letters(ds)) == ds
  {
    assert Pow2(5) == 32;
    assert forall i :: 0 <= i < |ds| ==> DecodeTable(Letters(ds)[i]) == ds[i];
  }

  lemma DecodedEncoded(s: seq<Byte>)
    ensures Accepted(Encoded(s)) && Decoded(Encoded(s)) == s
  {
    var bits := Undigits(Codes(s), 8);
    var filled := Filled(bits);
    FiveBits(filled);
    LettersAreAccepted(Digits(filled, 5));
    TimesIsProduct(|filled| / 5, 5);
    UndigitsOfDigits(filled, 5, |filled| / 5);
    DigitsOfUndigits(Codes(s), 8, filled[|bits|..]);
    assert filled == bits + filled[|bits|..];
    EightBits(filled);
    assert Chars(Codes(s)) == s;
  }

  // One character for every five bits begun: 0, 2, 4, 5, 7 for the five lengths of the last block.
  lemma EncodedLength(s: seq<Byte>)
    ensures |Encoded(s)| == (8 * |s| + 4) / 5
  {
    TimesIsProduct(|s|, 8);
    FiveBits(Filled(Undigits(Codes(s), 8)));
  }

  // ---- Blocks ----

  lemma CodesSum(a: seq<Byte>, b: seq<Byte>)
    ensures Codes(a + b) == Codes(a) + Codes(b)
  {
  }

  // One more group behind the packed ones. The bits it goes to are zeros, so that | adds.
  lemma Packed(ds: seq<nat>, d: nat, w: nat)
    requires d < Pow2(w) && Times(|ds|, w) + w <= 64
    ensures var before := Value(Undigits(ds, w));
      Low(Shl(before, w), 64) == Shl(before, w) && Value(Undigits(ds + [d], w)) == Shl(before, w) + d
  {
    var last := ToBits(d, w);
    UndigitsSum(ds, [d], w);
    assert Undigits([d], w) == last by {
      assert [d][1..] == [] && last + [] == last;
    }
    ValueSum(Undigits(ds, w), last);
    ValueOfToBits(d, w);
    PackedFits(Undigits(ds, w), w);
  }

  lemma PackedByte(src: seq<Byte>, i: nat)
    requires i < |src| <= 5
    ensures var before := Value(Undigits(Codes(src[..i]), 8));
      && Low(Shl(before, 8), 64) == Shl(before, 8)
      && Value(Undigits(Codes(src[..i + 1]), 8)) == Shl(before, 8) + src[i] as int
  {
    assert Codes(src[..i + 1]) == Codes(src[..i]) + [src[i] as int];
    assert Pow2(8) == 256;
    TimesIsProduct(i, 8);
    Packed(Codes(src[..i]), src[i] as int, 8);
  }

  // Forty bits and fewer fit into the buffer.
  lemma PackedFits(front: seq<bool>, w: nat)
    requires |front| + w <= 64
    ensures Low(Shl(Value(front), w), 64) == Shl(Value(front), w)
  {
    ValueBound(front);
    ShlBound(Value(front), |front|, w);
    Pow2Grows(|front| + w, 64);
    LowOfSmall(Shl(Value(front), w), 64);
  }

  lemma {:induction false} Pow2Grows(a: nat, b: nat)
    requires a <= b
    ensures Pow2(a) <= Pow2(b)
    decreases b - a
  {
    if a < b {
      Pow2Grows(a, b - 1);
    }
  }

  // The letters of a string whose bits are a whole number of groups.
  function Grouped(s: seq<Byte>): (r: seq<Byte>) {
    var bits := Undigits(Codes(s), 8);
    FiveBits(bits);
    Letters(Digits(bits, 5))
  }

  lemma BlockLetter(src: seq<Byte>, j: nat, buffer: nat)
    requires |src| == 5 && j < 8 && buffer == Low(Value(Undigits(Codes(src), 8)), 5 * (j + 1))
    ensures Shr(buffer, 5 * j) < 32 && |Grouped(src)| == 8 && Letter(Shr(buffer, 5 * j)) == Grouped(src)[7 - j]
  {
    var bits := Undigits(Codes(src), 8);
    TimesIsProduct(5, 8);
    TimesIsProduct(7 - j, 5);
    DigitAt(bits, 5, 7 - j, 5 * j);
    FiveBits(bits);
    ShrOfLow(Value(bits), 5 * j, 5);
    LowBound(Shr(Value(bits), 5 * j), 5);
    assert Pow2(5) == 32;
  }

  lemma FortyBits(src: seq<Byte>)
    requires |src| == 5
    ensures var bits := Undigits(Codes(src), 8); Low(Value(bits), 40) == Value(bits) && |Grouped(src)| == 8
  {
    var bits := Undigits(Codes(src), 8);
    TimesIsProduct(5, 8);
    LowOfValue(bits, 40);
    assert bits[|bits| - 40..] == bits;
    FiveBits(bits);
  }

  // Shifting to the left and back leaves the groups that are still to come.
  lemma TopCleared(value: nat, j: nat, buffer: nat)
    requires j < 8 && buffer == Low(value, if j == 7 then 40 else 5 * (j + 2))
    ensures Shr(Low(Shl(buffer, 24 + (7 - j) * 5), 64), 24 + (7 - j) * 5) == Low(value, 5 * (j + 1))
  {
    Cleared(buffer, 24 + (7 - j) * 5, 64);
    LowOfLow(value, if j == 7 then 40 else 5 * (j + 2), 5 * (j + 1));
  }

  method EncodeBlock(res: array<Byte>, src: seq<Byte>)
    requires res.Length == 8 && |src| == 5
    modifies res
    ensures res[..] == Grouped(src)
  {
    ghost var bits := Undigits(Codes(src), 8);
    var buffer := 0;
    for i := 0 to 5
      invariant buffer == Value(Undigits(Codes(src[..i]), 8))
    {
      PackedByte(src, i);
      if i != 0 {
        buffer := Low(Shl(buffer, 8), 64);
      }
      buffer := buffer + src[i] as int;
    }
    assert src[..5] == src;
    FortyBits(src);
    var j := 7;
    while j >= 0
      invariant -1 <= j <= 7 && buffer == Low(Value(bits), if j == 7 then 40 else 5 * (j + 2))
      invariant forall k :: 0 <= k < 7 - j ==> res[k] == Grouped(src)[k]
    {
      TopCleared(Value(bits), j, buffer);
      buffer := Shr(Low(Shl(buffer, 24 + (7 - j) * 5), 64), 24 + (7 - j) * 5);
      BlockLetter(src, j, buffer);
      var c := Shr(buffer, j * 5);
      res[7 - j] := Letter(c);
      j := j - 1;
    }
  }

  lemma ValuesSum(a: seq<Byte>, b: seq<Byte>)
    requires Accepted(a) && Accepted(b)
    ensures Accepted(a + b) && Values(a + b) == Values(a) + Values(b)
  {
  }

  lemma PackedValue(src: seq<Byte>, i: nat)
    requires i < |src| <= 8 && Accepted(src[..i]) && DecodeTable(src[i]) < 32
    ensures Accepted(src[..i + 1])
    ensures var before := Value(Undigits(Values(src[..i]), 5));
      && Low(Shl(before, 5), 64) == Shl(before, 5)
      && Value(Undigits(Values(src[..i + 1]), 5)) == Shl(before, 5) + DecodeTable(src[i])
  {
    assert Accepted(src[..i + 1]);
    assert Values(src[..i + 1]) == Values(src[..i]) + [DecodeTable(src[i])];
    assert Pow2(5) == 32;
    TimesIsProduct(i, 5);
    Packed(Values(src[..i]), DecodeTable(src[i]), 5);
  }

  lemma ByteOfBits(bits: seq<bool>, k: nat, low: nat)
    requires |bits| == 40 && k < 5 && low == 32 - 8 * k
    ensures |Digits(bits, 8)| == 5 && Digits(bits, 8)[k] == Low(Shr(Value(bits), low), 8) < 256
  {
    assert Times(k, 8) == 8 * k by {
      TimesIsProduct(k, 8);
    }
    EightBits(bits);
    DigitAt(bits, 8, k, low);
    assert Pow2(8) == 256;
  }

  lemma BlockByte(src: seq<Byte>, j: nat)
    requires |src| == 8 && Accepted(src) && j < 5
    ensures var c := Low(Shr(Value(Undigits(Values(src), 5)), j * 8), 8);
      c < 256 && |Decoded(src)| == 5 && c as char == Decoded(src)[4 - j]
  {
    var bits := Undigits(Values(src), 5);
    assert |bits| == 40 by {
      TimesIsProduct(8, 5);
    }
    ByteOfBits(bits, 4 - j, j * 8);
    EightBits(bits);
  }

  method DecodeBlock(res: array<Byte>, src: seq<Byte>) returns (ok: bool)
    requires res.Length == 5 && |src| == 8
    modifies res
    ensures ok <==> Accepted(src)
    ensures ok ==> res[..] == Decoded(src)
  {
    var buffer := 0;
    for i := 0 to 8
      invariant Accepted(src[..i]) && buffer == Value(Undigits(Values(src[..i]), 5))
    {
      var dec := DecodeTable(src[i]);
      if dec >= 32 {
        return false;
      }
      PackedValue(src, i);
      if i != 0 {
        buffer := Low(Shl(buffer, 5), 64);
      }
      buffer := buffer + dec;
    }
    assert src[..8] == src;
    BlockByte(src, 4);
    var j := 4;
    while j >= 0
      invariant -1 <= j <= 4 && |Decoded(src)| == 5
      invariant forall k :: 0 <= k < 4 - j ==> res[k] == Decoded(src)[k]
    {
      BlockByte(src, j);
      res[4 - j] := Low(Shr(buffer, j * 8), 8) as char;
      j := j - 1;
    }
    return true;
  }

  // ---- Whole strings ----

  lemma LettersSum(a: seq<nat>, b: seq<nat>)
    requires Small(a, 5) && Small(b, 5)
    ensures Small(a + b, 5) && Letters(a + b) == Letters(a) + Letters(b)
  {
  }

  lemma GroupedSum(a: seq<Byte>, b: seq<Byte>)
    requires |a| % 5 == 0
    ensures Grouped(a + b) == Grouped(a) + Grouped(b)
  {
    CodesSum(a, b);
    var q := |a| / 5;
    assert |a| == 5 * q;
    WholeBlocks(q);
    RegroupSum(Codes(a), Codes(b), 8, 5, 8 * q);
    FiveBits(Undigits(Codes(a), 8));
    FiveBits(Undigits(Codes(b), 8));
    LettersSum(Digits(Undigits(Codes(a), 8), 5), Digits(Undigits(Codes(b), 8), 5));
  }

  lemma {:induction false} ZeroGroups(n: nat, w: nat)
    ensures Undigits(ZeroCodes(n), w) == Zeros(Times(n, w))
    decreases n
  {
    if n > 0 {
      ZeroGroup(w);
      ZeroGroups(n - 1, w);
      assert ZeroCodes(n)[1..] == ZeroCodes(n - 1);
    }
  }

  function ZeroCodes(n: nat): seq<nat> {
    seq(n, _ => 0)
  }

  lemma {:induction false} ZeroGroup(w: nat)
    ensures ToBits(0, w) == Zeros(w)
    decreases w
  {
    if w > 0 {
      ZeroGroup(w - 1);
    }
  }

  // NULs behind the tail are zeros behind its bits.
  lemma PaddedBits(tail: seq<Byte>, n: nat)
    ensures Undigits(Codes(tail + seq(n, _ => '\0')), 8) == Undigits(Codes(tail), 8) + Zeros(8 * n)
  {
    var nuls := seq(n, _ => '\0');
    TimesIsProduct(n, 8);
    CodesSum(tail, nuls);
    assert Codes(nuls) == ZeroCodes(n);
    UndigitsSum(Codes(tail), ZeroCodes(n), 8);
    ZeroGroups(n, 8);
  }

  lemma ZerosSum(m: nat, n: nat)
    ensures Zeros(m) + Zeros(n) == Zeros(m + n)
  {
  }

  // So the first of them may be what fills the last group of the tail.
  lemma FilledFirst(own: seq<bool>, n: nat)
    requires |Filled(own)| <= |own| + n
    ensures own + Zeros(n) == Filled(own) + Zeros(|own| + n - |Filled(own)|)
  {
    var m := (5 - |own| % 5) % 5;
    ZerosSum(m, n - m);
    assert own + (Zeros(m) + Zeros(n - m)) == (own + Zeros(m)) + Zeros(n - m);
  }

  // The last block is filled up with NULs, and as many letters are kept as its own bits need.
  lemma TailEncoded(tail: seq<Byte>, padd: seq<Byte>)
    requires |tail| < 5 && padd == tail + seq(5 - |tail|, _ => '\0')
    ensures (8 * |tail| + 4) / 5 <= |Grouped(padd)|
    ensures Encoded(tail) == Grouped(padd)[..(8 * |tail| + 4) / 5]
  {
    var own := Undigits(Codes(tail), 8);
    var filled := Filled(own);
    TimesIsProduct(|tail|, 8);
    PaddedBits(tail, 5 - |tail|);
    FilledFirst(own, 40 - |own|);
    var rest := Zeros(40 - |filled|);
    DigitsPrefix(filled, rest, 5);
    FiveBits(filled);
    FiveBits(filled + rest);
    EncodedLength(tail);
  }

  lemma FilledSum(x: seq<bool>, y: seq<bool>)
    requires |x| % 5 == 0
    ensures Filled(x + y) == x + Filled(y)
  {
    assert |x + y| % 5 == |y| % 5;
  }

  lemma FilledDigits(x: seq<bool>, y: seq<bool>, n: nat)
    requires |x| == Times(n, 5)
    ensures Digits(Filled(x + y), 5) == Digits(x, 5) + Digits(Filled(y), 5)
  {
    TimesIsProduct(n, 5);
    FilledSum(x, y);
    DigitsSum(x, Filled(y), 5, n);
  }

  lemma EncodedSum(a: seq<Byte>, b: seq<Byte>)
    requires |a| % 5 == 0
    ensures Encoded(a + b) == Grouped(a) + Encoded(b)
  {
    var x, y := Undigits(Codes(a), 8), Undigits(Codes(b), 8);
    CodesSum(a, b);
    UndigitsSum(Codes(a), Codes(b), 8);
    var q := |a| / 5;
    assert |a| == 5 * q;
    WholeBlocks(q);
    FilledDigits(x, y, 8 * q);
    FiveBits(x);
    FiveBits(Filled(y));
    LettersSum(Digits(x, 5), Digits(Filled(y), 5));
  }

  lemma BlockGrouped(src: seq<Byte>, j: nat)
    requires (j + 1) * 5 <= |src|
    ensures Grouped(src[..(j + 1) * 5]) == Grouped(src[..j * 5]) + Grouped(src[j * 5..j * 5 + 5])
  {
    GroupedSum(src[..j * 5], src[j * 5..j * 5 + 5]);
    assert src[..j * 5] + src[j * 5..j * 5 + 5] == src[..(j + 1) * 5];
  }

  lemma Cut(src: seq<Byte>, k: nat)
    requires k <= |src|
    ensures src == src[..k] + src[k..]
  {
  }

  // The loop that copies the last r bytes into the zeroed block.
  method CopyTail(padd: array<Byte>, src: seq<Byte>, r: nat)
    requires r <= padd.Length && r <= |src| && forall i :: 0 <= i < padd.Length ==> padd[i] == '\0'
    modifies padd
    ensures padd[..] == src[|src| - r..] + seq(padd.Length - r, _ => '\0')
  {
    ghost var tail := src[|src| - r..];
    for i := 0 to r
      invariant forall k :: 0 <= k < i ==> padd[k] == tail[k]
      invariant forall k :: i <= k < padd.Length ==> padd[k] == '\0'
    {
      padd[i] := src[|src| - r + i];
    }
  }

  lemma WholeEncoded(src: seq<Byte>, d: nat, r: nat, padd: seq<Byte>, encodeLen: nat)
    requires |src| == d * 5 + r && r < 5 && padd == src[|src| - r..] + seq(5 - r, _ => '\0')
    requires encodeLen == r * 8 / 5 + (if r * 8 % 5 > 0 then 1 else 0)
    ensures encodeLen <= |Grouped(padd)| && Encoded(src) == Grouped(src[..d * 5]) + Grouped(padd)[..encodeLen]
  {
    var tail := src[|src| - r..];
    TailEncoded(tail, padd);
    EncodedSum(src[..d * 5], tail);
    Cut(src, d * 5);
  }

  method Encode(src: seq<Byte>) returns (res: seq<Byte>)
    ensures res == Encoded(src)
  {
    var d, r := |src| / 5, |src| % 5;
    var outBuf := new Byte[8](_ => 'a');
    res := [];
    for j := 0 to d
      invariant fresh(outBuf) && outBuf.Length == 8
      invariant res == Grouped(src[..j * 5])
    {
      EncodeBlock(outBuf, src[j * 5..j * 5 + 5]);
      BlockGrouped(src, j);
      res := res + outBuf[..];
    }
    var padd := new Byte[5](_ => '\0');
    CopyTail(padd, src, r);
    EncodeBlock(outBuf, padd[..]);
    var encodeBits := r * 8;
    var encodeLen := encodeBits / 5 + (if encodeBits % 5 > 0 then 1 else 0);
    WholeEncoded(src, d, r, padd[..], encodeLen);
    res := res + outBuf[..encodeLen];
  }

  lemma CharsSum(a: seq<nat>, b: seq<nat>)
    requires Small(a, 8) && Small(b, 8)
    ensures Small(a + b, 8) && Chars(a + b) == Chars(a) + Chars(b)
  {
  }

  lemma DecodedSum(a: seq<Byte>, b: seq<Byte>)
    requires |a| % 8 == 0 && Accepted(a) && Accepted(b)
    ensures Accepted(a + b) && Decoded(a + b) == Decoded(a) + Decoded(b)
  {
    ValuesSum(a, b);
    var q := |a| / 8;
    assert |a| == 8 * q;
    WholeBlocks(q);
    RegroupSum(Values(a), Values(b), 5, 8, 5 * q);
    EightBits(Undigits(Values(a), 5));
    EightBits(Undigits(Values(b), 5));
    CharsSum(Digits(Undigits(Values(a), 5), 8), Digits(Undigits(Values(b), 5), 8));
  }

  // The NULs behind the last block are accepted as zeros; what they add is not kept.
  lemma TailDecoded(tail: seq<Byte>, padd: seq<Byte>)
    requires |tail| < 8 && padd == tail + seq(8 - |tail|, _ => '\0')
    ensures Accepted(padd) <==> Accepted(tail)
    ensures Accepted(tail) ==> |tail| * 5 / 8 <= |Decoded(padd)| && Decoded(tail) == Decoded(padd)[..|tail| * 5 / 8]
  {
    var nuls: seq<Byte> := seq(8 - |tail|, _ => '\0');
    assert Accepted(nuls);
    if Accepted(padd) {
      assert forall i :: 0 <= i < |tail| ==> tail[i] == padd[i];
      assert Accepted(tail);
    }
    if Accepted(tail) {
      var own, rest := Undigits(Values(tail), 5), Undigits(Values(nuls), 5);
      ValuesSum(tail, nuls);
      UndigitsSum(Values(tail), Values(nuls), 5);
      TimesIsProduct(|tail|, 5);
      DigitsPrefix(own, rest, 8);
      EightBits(own);
      EightBits(own + rest);
    }
  }

  lemma BlockDecoded(src: seq<Byte>, j: nat)
    requires (j + 1) * 8 <= |src| && Accepted(src[..j * 8]) && Accepted(src[j * 8..j * 8 + 8])
    ensures Accepted(src[..(j + 1) * 8])
    ensures Decoded(src[..(j + 1) * 8]) == Decoded(src[..j * 8]) + Decoded(src[j * 8..j * 8 + 8])
  {
    DecodedSum(src[..j * 8], src[j * 8..j * 8 + 8]);
    assert src[..j * 8] + src[j * 8..j * 8 + 8] == src[..(j + 1) * 8];
  }

  lemma WholeDecoded(src: seq<Byte>, d: nat, r: nat, padd: seq<Byte>)
    requires |src| == d * 8 + r && r < 8 && padd == src[|src| - r..] + seq(8 - r, _ => '\0') && Accepted(src[..d * 8])
    ensures Accepted(padd) ==> Accepted(src) && r * 5 / 8 <= |Decoded(padd)|
    ensures Accepted(padd) ==> Decoded(src) == Decoded(src[..d * 8]) + Decoded(padd)[..r * 5 / 8]
    ensures !Accepted(padd) ==> !Accepted(src[d * 8..|src|]) && d * 8 < |src|
  {
    var tail := src[|src| - r..];
    TailDecoded(tail, padd);
    Cut(src, d * 8);
    assert tail == src[d * 8..|src|] == src[d * 8..];
    if Accepted(padd) {
      DecodedSum(src[..d * 8], tail);
    }
  }

  // Block j is the first one with a byte that is not accepted.
  ghost predicate StoppedAt(src: seq<Byte>, j: nat, res: seq<Byte>) {
    && j * 8 < |src| && Accepted(src[..j * 8]) && res == Decoded(src[..j * 8])
    && !Accepted(src[j * 8..if j * 8 + 8 <= |src| then j * 8 + 8 else |src|])
  }

  ghost predicate DecodesTo(src: seq<Byte>, res: seq<Byte>) {
    if Accepted(src) then res == Decoded(src) else exists j: nat :: StoppedAt(src, j, res)
  }

  // A string that is not accepted still gives the bytes of the blocks before the first bad one.
  method Decode(src: seq<Byte>) returns (ok: bool, res: seq<Byte>)
    ensures ok <==> Accepted(src)
    ensures DecodesTo(src, res)
  {
    var d, r := |src| / 8, |src| % 8;
    var outBuf := new Byte[5](_ => 'a');
    res := [];
    for j := 0 to d
      invariant fresh(outBuf) && outBuf.Length == 5
      invariant Accepted(src[..j * 8]) && res == Decoded(src[..j * 8])
    {
      var block := src[j * 8..j * 8 + 8];
      ok := DecodeBlock(outBuf, block);
      if !ok {
        Stops(src, j, res);
        return;
      }
      BlockDecoded(src, j);
      res := res + outBuf[..];
    }
    var padd := new Byte[8](_ => '\0');
    CopyTail(padd, src, r);
    WholeDecoded(src, d, r, padd[..]);
    ok := DecodeBlock(outBuf, padd[..]);
    if !ok {
      Stops(src, d, res);
      return;
    }
    res := res + outBuf[..r * 5 / 8];
  }

  lemma Stops(src: seq<Byte>, j: nat, res: seq<Byte>)
    requires StoppedAt(src, j, res)
    ensures !Accepted(src) && DecodesTo(src, res)
  {
    var a, b := j * 8, if j * 8 + 8 <= |src| then j * 8 + 8 else |src|;
    var i :| 0 <= i < |src[a..b]| && DecodeTable(src[a..b][i]) >= 32;
    assert src[a..b][i] == src[a + i];
  }
}
