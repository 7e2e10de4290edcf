// JsonAllocator: blocks are cut from zones of at least JSON_ZONE_SIZE bytes, the head zone first.
module GasonZones {

  const JSON_ZONE_SIZE: nat := 4096

  // sizeof(Zone)
  const HEADER: nat := 16

  // size is what malloc was asked for; end is the first byte not handed out.
  datatype Zone = Zone(base: nat, size: nat, end: nat)

  datatype Block = Block(at: nat, size: nat)

  // ---- The mask ----

  // x & ~m, bit by bit.
  function AndNot(x: nat, m: nat): (r: nat)
    ensures r <= x && x - r <= m
  {
    if x == 0 then 0 else 2 * AndNot(x / 2, m / 2) + (if x % 2 == 1 && m % 2 == 0 then 1 else 0)
  }

  // The number in the low n bits of a word.
  function Number(x: bv64, n: nat): nat {
    if n == 0 then 0 else 2 * Number(x >> 1, n - 1) + (if IsOdd(x) then 1 else 0)
  }

  predicate IsOdd(x: bv64) {
    x & 1 == 1
  }

  predicate Masks(x: bv64, m: bv64, r: bv64) {
    r == x & !m
  }

  // So it is on words.
  lemma {:induction false} MaskOnWords(x: bv64, m: bv64, r: bv64, n: nat)
    requires Masks(x, m, r)
    ensures Number(r, n) == AndNot(Number(x, n), Number(m, n))
  {
    if n > 0 {
      ShiftedMask(x, m, r);
      MaskOnWords(x >> 1, m >> 1, r >> 1, n - 1);
      MaskStep(x, m, r, n);
    }
  }

  lemma MaskStep(x: bv64, m: bv64, r: bv64, n: nat)
    requires n > 0 && (IsOdd(r) <==> IsOdd(x) && !IsOdd(m))
    requires Number(r >> 1, n - 1) == AndNot(Number(x >> 1, n - 1), Number(m >> 1, n - 1))
    ensures Number(r, n) == AndNot(Number(x, n), Number(m, n))
  {
    var x', m' := Number(x >> 1, n - 1), Number(m >> 1, n - 1);
    OneMoreBit(Number(x, n), Number(m, n), Number(r, n), x', m', IsOdd(x), IsOdd(m));
  }

  lemma OneMoreBit(x: nat, m: nat, r: nat, x': nat, m': nat, b: bool, c: bool)
    requires x == 2 * x' + (if b then 1 else 0) && m == 2 * m' + (if c then 1 else 0)
    requires r == 2 * AndNot(x', m') + (if b && !c then 1 else 0)
    ensures r == AndNot(x, m)
  {
    NextBit(x', b, m', c);
  }

  lemma ShiftedMask(x: bv64, m: bv64, r: bv64)
    requires Masks(x, m, r)
    ensures Masks(x >> 1, m >> 1, r >> 1)
    ensures IsOdd(r) <==> IsOdd(x) && !IsOdd(m)
  {
  }

  lemma Digit(a: nat, b: nat)
    requires b < 2
    ensures (2 * a + b) / 2 == a && (2 * a + b) % 2 == b
  {
  }

  lemma NextBit(x: nat, b: bool, m: nat, c: bool)
    ensures AndNot(2 * x + (if b then 1 else 0), 2 * m + (if c then 1 else 0))
         == 2 * AndNot(x, m) + (if b && !c then 1 else 0)
  {
    Digit(x, if b then 1 else 0);
    Digit(m, if c then 1 else 0);
  }

  // (x + (align - 1)) & ~(align - 1), where the sum does not wrap around.
  function AlignPointer(x: nat, align: nat): (r: nat)
    requires align > 0
    ensures x <= r < x + align
  {
    AndNot(x + (align - 1), align - 1)
  }

  predicate PowerOfTwo(a: nat) {
    a > 0 && (a == 1 || (a % 2 == 0 && PowerOfTwo(a / 2)))
  }

  // For a power of two the mask rounds down to a multiple.
  lemma {:induction false} MaskDivides(y: nat, a: nat)
    requires PowerOfTwo(a)
    ensures AndNot(y, a - 1) == y / a * a
    decreases a
  {
    if a == 1 {
      NoMask(y);
    } else {
      MaskDivides(y / 2, a / 2);
      assert a == 2 * (a / 2);
      TwiceTheMask(y, a / 2);
      HalfTwice(y, a / 2);
    }
  }

  lemma TwiceTheMask(y: nat, b: nat)
    requires b > 0
    ensures AndNot(y, 2 * b - 1) == 2 * AndNot(y / 2, b - 1)
  {
    assert 2 * b - 1 == 2 * (b - 1) + 1;
    NextBit(y / 2, y % 2 == 1, b - 1, true);
  }

  lemma {:induction false} NoMask(y: nat)
    ensures AndNot(y, 0) == y
  {
    if y > 0 {
      NoMask(y / 2);
    }
  }

  lemma HalfTwice(y: nat, b: nat)
    requires b > 0
    ensures 2 * (y / 2 / b * b) == y / (2 * b) * (2 * b)
  {
    var q, e := y / 2 / b, y / 2 % b;
    assert y / 2 == b * q + e;
    var d, f := y / (2 * b), y % (2 * b);
    assert y == 2 * b * d + f;
    assert 2 * b * q == 2 * (b * q);
    Quotient(2 * b, d, f, q, 2 * e + y % 2);
    assert 2 * (q * b) == q * (2 * b);
  }

  // The lowest bit that is set.
  lemma {:induction false} LowestBit(a: nat)
    requires a > 0
    ensures 0 < AndNot(a, a - 1) <= a
    ensures AndNot(a, a - 1) == a <==> PowerOfTwo(a)
  {
    var b := a / 2;
    if a % 2 == 1 {
      assert a - 1 == 2 * b;
      NextBit(b, true, b, false);
      NothingLeft(b);
    } else {
      assert a - 1 == 2 * (b - 1) + 1;
      LowestBit(b);
      NextBit(b, false, b - 1, true);
    }
  }

  lemma {:induction false} NothingLeft(x: nat)
    ensures AndNot(x, x) == 0
  {
    if x > 0 {
      NothingLeft(x / 2);
    }
  }

  ghost predicate AlignsAll(align: nat)
    requires align > 0
  {
    forall x :: AlignPointer(x, align) % align == 0
  }

  // What is returned is aligned for every address exactly when the alignment is a power of two.
  lemma AlignsExactly(align: nat)
    requires align > 0
    ensures AlignsAll(align) <==> PowerOfTwo(align)
  {
    if PowerOfTwo(align) {
      forall x: nat ensures AlignPointer(x, align) % align == 0 {
        Aligned(x, align);
      }
    } else {
      OneIsUnaligned(align);
    }
  }

  lemma Aligned(x: nat, align: nat)
    requires PowerOfTwo(align)
    ensures AlignPointer(x, align) % align == 0
  {
    MaskedIsMultiple(x + (align - 1), align);
  }

  lemma MaskedIsMultiple(y: nat, a: nat)
    requires PowerOfTwo(a)
    ensures AndNot(y, a - 1) % a == 0
  {
    MaskDivides(y, a);
    IsMultiple(AndNot(y, a - 1), y / a, a);
  }

  lemma IsMultiple(r: nat, q: nat, m: nat)
    requires m > 0 && r == q * m
    ensures r % m == 0
  {
    Multiple(q, m);
  }

  lemma AlignedIf(x: nat, align: nat)
    requires align > 0
    ensures PowerOfTwo(align) ==> OnBoundary(AlignPointer(x, align), align)
  {
    if PowerOfTwo(align) {
      Aligned(x, align);
    }
  }

  lemma OneIsUnaligned(align: nat)
    requires align > 0 && !PowerOfTwo(align)
    ensures AlignPointer(1, align) % align != 0
  {
    LowestBit(align);
    assert 1 + (align - 1) == align;
    Below(AndNot(align, align - 1), align);
  }

  lemma Below(r: nat, m: nat)
    requires r < m
    ensures r % m == r
  {
    assert r == m * (r / m) + r % m;
    Quotient(m, r / m, r % m, 0, r);
  }

  lemma Multiple(q: nat, m: nat)
    requires m > 0
    ensures (q * m) % m == 0
  {
    var x := q * m;
    assert x == m * (x / m) + x % m;
    Quotient(m, x / m, x % m, q, 0);
  }

  lemma Quotient(m: nat, d: int, e: nat, q: int, r: nat)
    requires e < m && r < m && m * d + e == m * q + r
    ensures d == q && e == r
  {
    if d < q {
      Larger(m, d, q);
    } else if q < d {
      Larger(m, q, d);
    }
  }

  lemma Scaled(m: nat, a: int, b: int)
    requires a <= b
    ensures m * a <= m * b
  {
  }

  lemma Larger(m: nat, a: int, b: int)
    requires a < b
    ensures m * a + m <= m * b
  {
    Scaled(m, a + 1, b);
    assert m * (a + 1) == m * a + m;
  }

  // ---- Zones ----

  predicate Apart(a: nat, aSize: nat, b: nat, bSize: nat) {
    a + aSize <= b || b + bSize <= a
  }

  // The block was handed out of this zone.
  predicate Within(b: Block, z: Zone) {
    z.base + 16 <= b.at && b.at + b.size <= z.end
  }

  ghost predicate InSome(b: Block, zones: seq<Zone>) {
    exists i :: 0 <= i < |zones| && Within(b, zones[i])
  }

  ghost predicate ZonesFit(zones: seq<Zone>) {
    && (forall i :: 0 <= i < |zones| ==>
          4096 <= zones[i].size && zones[i].base + 16 <= zones[i].end <= zones[i].base + zones[i].size)
    && (forall i, j :: 0 <= i < j < |zones| ==> Apart(zones[i].base, zones[i].size, zones[j].base, zones[j].size))
  }

  // No two blocks overlap, and none overlaps the header of a zone or leaves its zone.
  ghost predicate BlocksFit(zones: seq<Zone>, blocks: seq<Block>) {
    && (forall b :: 0 <= b < |blocks| ==> InSome(blocks[b], zones))
    && (forall b, c :: 0 <= b < c < |blocks| ==> Apart(blocks[b].at, blocks[b].size, blocks[c].at, blocks[c].size))
  }

  class JsonAllocator {
    var zones: seq<Zone> // the head is zones[0]
    ghost var blocks: seq<Block>

    ghost predicate Valid()
      reads this
    {
      ZonesFit(zones) && BlocksFit(zones, blocks)
    }

    constructor ()
      ensures Valid() && blocks == []
    {
      zones, blocks := [], [];
    }

    // base is what malloc returns if it is called. The head zone is used as long as the block fits into it; a block that
    // needs a zone of its own does not displace the head.
    method Allocate(n: nat, align: nat, base: nat) returns (p: nat)
      requires Valid() && align > 0
      requires forall i :: 0 <= i < |zones| ==> Apart(zones[i].base, zones[i].size, base, ZoneSize(n, align))
      modifies this
      ensures Valid() && blocks == old(blocks) + [Block(p, n)]
      ensures PowerOfTwo(align) ==> OnBoundary(p, align)
      ensures if FitsHead(old(zones), n, align) then zones == old(zones)[0 := old(zones)[0].(end := p + n)]
        else if 16 + n + align <= 4096 || old(zones) == [] then
          zones == [Zone(base, ZoneSize(n, align), p + n)] + old(zones)
        else zones == [old(zones)[0], Zone(base, ZoneSize(n, align), p + n)] + old(zones)[1..]
    {
      ghost var start := if FitsHead(zones, n, align) then zones[0].end else base + HEADER;
      AlignedIf(start, align);
      if zones != [] {
        p := AlignPointer(zones[0].end, align);
        if p + n <= zones[0].base + JSON_ZONE_SIZE {
          CutFromHead(zones, blocks, p, n);
          blocks := blocks + [Block(p, n)];
          zones := zones[0 := zones[0].(end := p + n)];
          return;
        }
      }
      var zoneSize := HEADER + n + align;
      p := AlignPointer(base + HEADER, align);
      var z := Zone(base, if zoneSize <= JSON_ZONE_SIZE then JSON_ZONE_SIZE else zoneSize, p + n);
      if zoneSize <= JSON_ZONE_SIZE || zones == [] {
        NewZone(zones, blocks, z, 0, p, n);
        assert zones[..0] + [z] + zones[0..] == [z] + zones;
        zones := [z] + zones;
      } else {
        NewZone(zones, blocks, z, 1, p, n);
        assert zones[..1] + [z] + zones[1..] == [zones[0], z] + zones[1..];
        zones := [zones[0], z] + zones[1..];
      }
      blocks := blocks + [Block(p, n)];
    }
  }

  // The address is a multiple of the alignment.
  predicate OnBoundary(p: nat, align: nat)
    requires align > 0
  {
    p % align == 0
  }

  // What malloc is asked for.
  function ZoneSize(n: nat, align: nat): nat {
    if 16 + n + align <= 4096 then 4096 else 16 + n + align
  }

  predicate FitsHead(zones: seq<Zone>, n: nat, align: nat)
    requires align > 0
  {
    zones != [] && AlignPointer(zones[0].end, align) + n <= zones[0].base + 4096
  }

  lemma CutFromHead(zones: seq<Zone>, blocks: seq<Block>, p: nat, n: nat)
    requires ZonesFit(zones) && BlocksFit(zones, blocks) && zones != []
    requires zones[0].end <= p && p + n <= zones[0].base + JSON_ZONE_SIZE
    ensures var zones' := zones[0 := zones[0].(end := p + n)];
      ZonesFit(zones') && BlocksFit(zones', blocks + [Block(p, n)])
  {
    var zones', blocks' := zones[0 := zones[0].(end := p + n)], blocks + [Block(p, n)];
    forall b | 0 <= b < |blocks'| ensures InSome(blocks'[b], zones') {
      if b < |blocks| {
        assert InSome(blocks[b], zones);
        var i :| 0 <= i < |zones| && Within(blocks[b], zones[i]);
        assert Within(blocks'[b], zones'[i]);
      } else {
        assert Within(blocks'[b], zones'[0]);
      }
    }
    forall b | 0 <= b < |blocks| ensures Apart(blocks[b].at, blocks[b].size, p, n) {
      assert InSome(blocks[b], zones);
      var i :| 0 <= i < |zones| && Within(blocks[b], zones[i]);
      if i > 0 {
        assert Apart(zones[0].base, zones[0].size, zones[i].base, zones[i].size);
      }
    }
  }

  lemma NewZone(zones: seq<Zone>, blocks: seq<Block>, z: Zone, k: nat, p: nat, n: nat)
    requires ZonesFit(zones) && BlocksFit(zones, blocks) && k <= |zones|
    requires JSON_ZONE_SIZE <= z.size && z.base + HEADER <= p && p + n == z.end <= z.base + z.size
    requires forall i :: 0 <= i < |zones| ==> Apart(zones[i].base, zones[i].size, z.base, z.size)
    ensures var zones' := zones[..k] + [z] + zones[k..];
      ZonesFit(zones') && BlocksFit(zones', blocks + [Block(p, n)])
  {
    var zones', blocks' := zones[..k] + [z] + zones[k..], blocks + [Block(p, n)];
    forall b | 0 <= b < |blocks'| ensures InSome(blocks'[b], zones') {
      if b < |blocks| {
        assert InSome(blocks[b], zones);
        var i :| 0 <= i < |zones| && Within(blocks[b], zones[i]);
        assert zones'[if i < k then i else i + 1] == zones[i];
        assert Within(blocks'[b], zones'[if i < k then i else i + 1]);
      } else {
        assert Within(blocks'[b], zones'[k]);
      }
    }
    forall b | 0 <= b < |blocks| ensures Apart(blocks[b].at, blocks[b].size, p, n) {
      assert InSome(blocks[b], zones);
      var i :| 0 <= i < |zones| && Within(blocks[b], zones[i]);
      assert Apart(zones[i].base, zones[i].size, z.base, z.size);
    }
  }
}
