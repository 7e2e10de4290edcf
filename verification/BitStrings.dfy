// Bit strings as sequences of bits, the numbers they stand for, and their division into groups of one width.
module BitStrings {

  // The first bit is the most significant one.
  function Value(bits: seq<bool>): nat {
    if bits == [] then 0 else 2 * Value(bits[..|bits| - 1]) + (if bits[|bits| - 1] then 1 else 0)
  }

  function ToBits(v: nat, n: nat): (r: seq<bool>)
    ensures |r| == n
  {
    if n == 0 then [] else ToBits(v / 2, n - 1) + [v % 2 == 1]
  }

  // ---- Shifting and masking ----

  function Pow2(n: nat): (r: nat)
    ensures r > 0
  {
    if n == 0 then 1 else 2 * Pow2(n - 1)
  }

  // x << k on a machine word without end.
  function Shl(x: nat, k: nat): nat {
    if k == 0 then x else 2 * Shl(x, k - 1)
  }

  // x >> k.
  function Shr(x: nat, k: nat): nat {
    if k == 0 then x else Shr(x / 2, k - 1)
  }

  // The last k bits of x.
  function Low(x: nat, k: nat): nat {
    if k == 0 then 0 else 2 * Low(x / 2, k - 1) + x % 2
  }

  lemma {:induction false} ValueBound(bits: seq<bool>)
    ensures Value(bits) < Pow2(|bits|)
    decreases |bits|
  {
    if bits != [] {
      ValueBound(bits[..|bits| - 1]);
    }
  }

  lemma {:induction false} ValueSum(a: seq<bool>, b: seq<bool>)
    ensures Value(a + b) == Shl(Value(a), |b|) + Value(b)
    decreases |b|
  {
    if b == [] {
      assert a + b == a;
    } else {
      var c := b[..|b| - 1];
      assert (a + b)[..|a + b| - 1] == a + c;
      ValueSum(a, c);
      assert (a + b)[|a + b| - 1] == b[|b| - 1];
    }
  }

  lemma {:induction false} ValueOfToBits(v: nat, n: nat)
    requires v < Pow2(n)
    ensures Value(ToBits(v, n)) == v
    decreases n
  {
    if n > 0 {
      ValueOfToBits(v / 2, n - 1);
      assert ToBits(v, n)[..n - 1] == ToBits(v / 2, n - 1);
    }
  }

  lemma {:induction false} ToBitsOfValue(bits: seq<bool>)
    ensures ToBits(Value(bits), |bits|) == bits
    decreases |bits|
  {
    if bits != [] {
      ToBitsOfValue(bits[..|bits| - 1]);
    }
  }

  lemma {:induction false} ShrOfValue(bits: seq<bool>, k: nat)
    requires k <= |bits|
    ensures Shr(Value(bits), k) == Value(bits[..|bits| - k])
    decreases k
  {
    if k == 0 {
      assert bits[..|bits|] == bits;
    } else {
      var front := bits[..|bits| - 1];
      ShrOfValue(front, k - 1);
      assert front[..|front| - (k - 1)] == bits[..|bits| - k];
    }
  }

  lemma {:induction false} LowOfValue(bits: seq<bool>, k: nat)
    requires k <= |bits|
    ensures Low(Value(bits), k) == Value(bits[|bits| - k..])
    decreases k
  {
    if k > 0 {
      var front := bits[..|bits| - 1];
      LowOfValue(front, k - 1);
      var last := bits[|bits| - k..];
      assert last[..k - 1] == front[|front| - (k - 1)..];
    }
  }

  // ---- Words of n bits ----

  lemma {:induction false} LowOfSmall(x: nat, k: nat)
    requires x < Pow2(k)
    ensures Low(x, k) == x
    decreases k
  {
    if k > 0 {
      LowOfSmall(x / 2, k - 1);
    }
  }

  lemma {:induction false} ShlBound(x: nat, a: nat, k: nat)
    requires x < Pow2(a)
    ensures Shl(x, k) < Pow2(a + k)
    decreases k
  {
    if k > 0 {
      ShlBound(x, a, k - 1);
    }
  }

  lemma {:induction false} LowOfShl(x: nat, k: nat, n: nat)
    requires k <= n
    ensures Low(Shl(x, k), n) == Shl(Low(x, n - k), k)
    decreases k
  {
    if k > 0 {
      LowOfShl(x, k - 1, n - 1);
    }
  }

  lemma {:induction false} ShrOfShl(x: nat, k: nat)
    ensures Shr(Shl(x, k), k) == x
    decreases k
  {
    if k > 0 {
      ShrOfShl(x, k - 1);
    }
  }

  lemma {:induction false} LowOfLow(x: nat, m: nat, n: nat)
    requires n <= m
    ensures Low(Low(x, m), n) == Low(x, n)
    decreases n
  {
    if n > 0 {
      LowOfLow(x / 2, m - 1, n - 1);
    }
  }

  lemma {:induction false} ShrOfLow(x: nat, a: nat, b: nat)
    ensures Shr(Low(x, a + b), a) == Low(Shr(x, a), b)
    decreases a
  {
    if a > 0 {
      ShrOfLow(x / 2, a - 1, b);
    }
  }

  lemma {:induction false} LowBound(x: nat, k: nat)
    ensures Low(x, k) < Pow2(k)
    decreases k
  {
    if k > 0 {
      LowBound(x / 2, k - 1);
    }
  }

  // Shifting a word of n bits left and right again clears its first k bits.
  lemma Cleared(x: nat, k: nat, n: nat)
    requires k <= n
    ensures Shr(Low(Shl(x, k), n), k) == Low(x, n - k)
  {
    LowOfShl(x, k, n);
    ShrOfShl(Low(x, n - k), k);
  }

  // ---- Slices ----

  lemma DropSlice(s: seq<bool>, w: nat, a: nat, b: nat)
    requires a <= b && w + b <= |s|
    ensures s[w..][a..b] == s[w + a..w + b]
  {
    var l, r := s[w..][a..b], s[w + a..w + b];
    assert |l| == |r|;
    assert forall i :: 0 <= i < |l| ==> l[i] == r[i];
  }

  lemma TakeDrop(s: seq<bool>, a: nat, b: nat)
    requires a <= b <= |s|
    ensures s[..b][a..] == s[a..b]
  {
  }

  lemma DropSum(a: seq<bool>, b: seq<bool>, w: nat)
    requires w <= |a|
    ensures (a + b)[..w] == a[..w] && (a + b)[w..] == a[w..] + b
  {
  }

  // ---- Groups of w bits ----

  // What is left over behind the last whole group is dropped.
  function Digits(bits: seq<bool>, w: nat): (r: seq<nat>)
    requires w > 0
    decreases |bits|
  {
    if |bits| < w then [] else [Value(bits[..w])] + Digits(bits[w..], w)
  }

  function Undigits(ds: seq<nat>, w: nat): (r: seq<bool>)
    ensures |r| == Times(|ds|, w)
  {
    if ds == [] then [] else ToBits(ds[0], w) + Undigits(ds[1..], w)
  }

  // n * w, added up.
  function Times(n: nat, w: nat): nat {
    if n == 0 then 0 else w + Times(n - 1, w)
  }

  lemma {:induction false} TimesIsProduct(n: nat, w: nat)
    ensures Times(n, w) == n * w
    decreases n
  {
    if n > 0 {
      TimesIsProduct(n - 1, w);
      assert (n - 1) * w + w == n * w;
    }
  }

  predicate Small(ds: seq<nat>, w: nat) {
    forall i :: 0 <= i < |ds| ==> ds[i] < Pow2(w)
  }

  lemma {:induction false} DigitsOfUndigits(ds: seq<nat>, w: nat, rest: seq<bool>)
    requires w > 0 && Small(ds, w) && |rest| < w
    ensures Digits(Undigits(ds, w) + rest, w) == ds
    decreases |ds|
  {
    if ds == [] {
      assert Undigits(ds, w) + rest == rest;
    } else {
      var more := Undigits(ds[1..], w) + rest;
      assert Undigits(ds, w) + rest == ToBits(ds[0], w) + more;
      ValueOfToBits(ds[0], w);
      DigitsOfUndigits(ds[1..], w, rest);
      DropSum(ToBits(ds[0], w), more, w);
    }
  }

  lemma {:induction false} UndigitsOfDigits(bits: seq<bool>, w: nat, n: nat)
    requires w > 0 && |bits| == Times(n, w)
    ensures Undigits(Digits(bits, w), w) == bits
    decreases n
  {
    if n > 0 {
      UndigitsOfDigits(bits[w..], w, n - 1);
      ToBitsOfValue(bits[..w]);
      assert bits == bits[..w] + bits[w..];
    }
  }

  lemma {:induction false} DigitsCount(bits: seq<bool>, w: nat, n: nat)
    requires w > 0 && Times(n, w) <= |bits| < Times(n, w) + w
    ensures |Digits(bits, w)| == n && Small(Digits(bits, w), w)
    decreases n
  {
    if n > 0 {
      DigitsCount(bits[w..], w, n - 1);
      ValueBound(bits[..w]);
    }
  }

  // The k-th group, in front of which there are k groups and behind which there are low bits, is found by shifting
  // the number and masking it.
  lemma DigitAt(bits: seq<bool>, w: nat, k: nat, low: nat)
    requires w > 0 && |bits| == Times(k, w) + w + low
    ensures k < |Digits(bits, w)|
    ensures Digits(bits, w)[k] == Low(Shr(Value(bits), low), w)
  {
    var at := Times(k, w);
    var front := bits[..at + w];
    assert |bits| - low == at + w;
    ShrOfValue(bits, low);
    assert |front| - w == at;
    LowOfValue(front, w);
    TakeDrop(bits, at, at + w);
    GroupAt(bits, w, k, at);
  }

  lemma {:induction false} GroupAt(bits: seq<bool>, w: nat, k: nat, at: nat)
    requires w > 0 && at == Times(k, w) && at + w <= |bits|
    ensures k < |Digits(bits, w)| && Digits(bits, w)[k] == Value(bits[at..at + w])
    decreases k
  {
    if k == 0 {
      assert bits[0..w] == bits[..w];
    } else {
      var rest := bits[w..];
      GroupAt(rest, w, k - 1, at - w);
      DropSlice(bits, w, at - w, at);
      assert Digits(bits, w) == [Value(bits[..w])] + Digits(rest, w);
    }
  }

  lemma {:induction false} UndigitsSum(a: seq<nat>, b: seq<nat>, w: nat)
    ensures Undigits(a + b, w) == Undigits(a, w) + Undigits(b, w)
    decreases |a|
  {
    if a == [] {
      assert a + b == b;
    } else {
      UndigitsSum(a[1..], b, w);
      assert (a + b)[1..] == a[1..] + b;
    }
  }

  lemma {:induction false} DigitsSum(a: seq<bool>, b: seq<bool>, w: nat, n: nat)
    requires w > 0 && |a| == Times(n, w)
    ensures Digits(a + b, w) == Digits(a, w) + Digits(b, w)
    decreases n
  {
    if n == 0 {
      assert a == [] && a + b == b;
    } else {
      DigitsSum(a[w..], b, w, n - 1);
      DropSum(a, b, w);
    }
  }

  lemma {:induction false} DigitsPrefix(a: seq<bool>, b: seq<bool>, w: nat)
    requires w > 0
    ensures Digits(a, w) <= Digits(a + b, w)
    decreases |a|
  {
    if |a| >= w {
      DropSum(a, b, w);
      DigitsPrefix(a[w..], b, w);
    }
  }

  // Groups of w bits as groups of v bits, where both come out even after the first part.
  lemma RegroupSum(a: seq<nat>, b: seq<nat>, w: nat, v: nat, n: nat)
    requires v > 0 && Times(|a|, w) == Times(n, v)
    ensures Digits(Undigits(a + b, w), v) == Digits(Undigits(a, w), v) + Digits(Undigits(b, w), v)
  {
    UndigitsSum(a, b, w);
    DigitsSum(Undigits(a, w), Undigits(b, w), v, n);
  }
}
