// Names of log files and the keys RequestLogLoader orders them by: what the facade needs of a key holds of them.
module LogFileNames {
  import opened Names
  import opened FileReceiverProtocol
  import opened Options
  import opened ReceiverFacadeProtocol
  import ReceiverFacadeRuns

  // ---- The time in a name ----

  predicate Digit(c: char) {
    '0' <= c <= '9'
  }

  const STAMP_SIZE: nat := 22

  // "%Y%m%d.%H%M%S.%q"
  predicate Stamp(s: string) {
    |s| == STAMP_SIZE && forall i :: 0 <= i < |s| ==> if i == 8 || i == 15 then s[i] == '.' else Digit(s[i])
  }

  // The digits as one number, which orders times as the calendar does.
  function Time(s: string): nat {
    if s == [] then 0
    else
      var t, c := Time(s[..|s| - 1]), s[|s| - 1];
      if Digit(c) then 10 * t + (c - '0') as nat else t
  }

  // Dots in the same places of two texts, and digits everywhere else.
  predicate Alike(s: string, t: string) {
    |s| == |t| && forall i :: 0 <= i < |s| ==> (Digit(s[i]) && Digit(t[i])) || s[i] == t[i]
  }

  lemma LessLonger(s: string, t: string, k: nat)
    requires k <= |s| && LessAt(s, t, k) && |s| == |t|
    ensures forall x: string, y: string, b: string :: Less(b + s + x, b + t + y)
  {
    forall x: string, y: string, b: string ensures Less(b + s + x, b + t + y) {
      var l, r, d := b + s + x, b + t + y, |b| + k;
      assert l[..d] == b + s[..k] && r[..d] == b + t[..k];
      assert l[d] == s[k] && r[d] == t[k];
      assert LessAt(l, r, d);
    }
  }

  lemma {:induction false} TimeOrder(s: string, t: string)
    requires Alike(s, t)
    ensures s == t || (Less(s, t) && Time(s) < Time(t)) || (Less(t, s) && Time(t) < Time(s))
    decreases |s|
  {
    if s != [] {
      var m := |s| - 1;
      TimeOrder(s[..m], t[..m]);
      if s[..m] == t[..m] {
        LastDecides(s, t, m);
      } else if Time(s[..m]) < Time(t[..m]) {
        FrontDecides(s, t, m);
      } else {
        FrontDecides(t, s, m);
      }
    }
  }

  lemma FrontDecides(s: string, t: string, m: nat)
    requires Alike(s, t) && |s| == m + 1 && Less(s[..m], t[..m]) && Time(s[..m]) < Time(t[..m])
    ensures Less(s, t) && Time(s) < Time(t)
  {
    Continued(s, t, m);
  }

  lemma LastDecides(s: string, t: string, m: nat)
    requires Alike(s, t) && |s| == m + 1 && s[..m] == t[..m]
    ensures s == t || (Less(s, t) && Time(s) < Time(t)) || (Less(t, s) && Time(t) < Time(s))
  {
    assert s == s[..m] + [s[m]] && t == t[..m] + [t[m]];
    if s[m] < t[m] {
      assert LessAt(s, t, m);
    } else if t[m] < s[m] {
      assert LessAt(t, s, m);
    }
  }

  lemma Continued(s: string, t: string, m: nat)
    requires |s| == |t| && m < |s| && Less(s[..m], t[..m])
    ensures Less(s, t)
  {
    var k: nat :| k <= m && LessAt(s[..m], t[..m], k);
    LessLonger(s[..m], t[..m], k);
    assert s == [] + s[..m] + s[m..] && t == [] + t[..m] + t[m..];
  }

  function Power(n: nat): nat {
    if n == 0 then 1 else 10 * Power(n - 1)
  }

  lemma {:induction false} TimeBelow(s: string)
    ensures Time(s) < Power(|s|)
    decreases |s|
  {
    if s != [] {
      TimeBelow(s[..|s| - 1]);
    }
  }

  // ---- Names as make_log_file_name_V_2_6 writes them ----

  // The base name, the time, and what comes behind: a random number, the count, the index and perhaps the lines.
  function Written(base: string, stamp: string, rest: string): Name {
    base + "." + stamp + rest
  }

  ghost predicate WrittenFor(base: string, n: Name) {
    exists stamp: string, rest: string :: Stamp(stamp) && n == Written(base, stamp, rest)
  }

  ghost function WrittenNames(bases: LogType -> string): NamesOf {
    (h: LogType, n: Name) => WrittenFor(bases(h), n)
  }

  // fname.find_first_of('.')
  function FirstDot(n: Name): (k: nat)
    ensures k <= |n| && '.' !in n[..k] && (k < |n| ==> n[k] == '.')
  {
    if n == [] || n[0] == '.' then 0
    else
      assert forall k :: 0 <= k < |n| ==> n[..k + 1] == [n[0]] + n[1..][..k];
      1 + FirstDot(n[1..])
  }

  // The time that parse_log_file_name finds in a name of this format.
  function StampIn(n: Name): Option<string> {
    var k := FirstDot(n);
    if k == 0 || |n| < k + 1 + STAMP_SIZE then None
    else
      var s := n[k + 1..k + 1 + STAMP_SIZE];
      if Stamp(s) then Some(s) else None
  }

  lemma {:induction false} FirstDotIs(n: Name, d: nat)
    requires d < |n| && '.' !in n[..d] && n[d] == '.'
    ensures FirstDot(n) == d
  {
    if d > 0 {
      assert n[0] == n[..d][0];
      assert n[1..][..d - 1] == n[..d][1..];
      FirstDotIs(n[1..], d - 1);
    }
  }

  lemma StampIsFound(base: string, stamp: string, rest: string)
    requires base != [] && '.' !in base && Stamp(stamp)
    ensures StampIn(Written(base, stamp, rest)) == Some(stamp)
  {
    var n := Written(base, stamp, rest);
    assert n[..|base|] == base && n[|base|] == '.';
    FirstDotIs(n, |base|);
    assert n[|base| + 1..|base| + 1 + STAMP_SIZE] == stamp;
  }

  // ---- RequestLogLoader::OrderStrategy ----

  function Priority(priorities: seq<nat>, h: LogType): nat {
    if h < |priorities| then priorities[h] else 0
  }

  function Most(priorities: seq<nat>): (m: nat)
    ensures forall h: LogType :: Priority(priorities, h) <= m
  {
    if priorities == [] then 0
    else
      var m := Most(priorities[1..]);
      assert forall h: LogType :: 0 < h ==> Priority(priorities, h) == Priority(priorities[1..], h - 1);
      if m < priorities[0] then priorities[0] else m
  }

  // k.time: Time() when there is no name
  function KeyTime(n: Name): nat {
    match StampIn(n)
    case Some(s) => Time(s)
    case None => 0
  }

  // The priority and the time as one number; a greater priority comes first.
  function OrderKey(priorities: seq<nat>): KeyOf {
    (h: LogType, n: Name) =>
      (Most(priorities) - Priority(priorities, h)) * 10_000_000_000_000_000_000_000 + KeyTime(n)
  }

  lemma KeyTimeBelow(n: Name)
    ensures KeyTime(n) < 10_000_000_000_000_000_000_000
  {
    match StampIn(n) {
      case Some(s) =>
        TimeBelow(s);
        assert Power(8) == 100_000_000 && Power(16) == 10_000_000_000_000_000;
        assert Power(22) == 10_000_000_000_000_000_000_000;
      case None =>
    }
  }

  // Key::operator<
  lemma KeysCompare(priorities: seq<nat>, h: LogType, a: Name, g: LogType, b: Name)
    ensures OrderKey(priorities)(h, a) < OrderKey(priorities)(g, b) <==>
      if Priority(priorities, h) != Priority(priorities, g) then Priority(priorities, h) > Priority(priorities, g)
      else KeyTime(a) < KeyTime(b)
  {
    KeyTimeBelow(a);
    KeyTimeBelow(b);
  }

  // Among types of one priority, written names compare by their times alone, whatever the bases and what stands behind.
  lemma WrittenKeysCompare(priorities: seq<nat>, h: LogType, a: string, s: string, x: string, g: LogType, b: string,
                           t: string, y: string)
    requires Priority(priorities, h) == Priority(priorities, g)
    requires a != [] && '.' !in a && b != [] && '.' !in b && Stamp(s) && Stamp(t)
    ensures OrderKey(priorities)(h, Written(a, s, x)) < OrderKey(priorities)(g, Written(b, t, y)) <==> Less(s, t)
  {
    KeysCompare(priorities, h, Written(a, s, x), g, Written(b, t, y));
    StampIsFound(a, s, x);
    StampIsFound(b, t, y);
    TimeOrder(s, t);
    if Less(s, t) {
      LessIrreflexive(s, t);
    }
  }

  // Among the written names of one base, the order of the strings is the order of the times.
  lemma WrittenInOrder(base: string, a: Name, b: Name)
    requires base != [] && '.' !in base && WrittenFor(base, a) && WrittenFor(base, b)
    ensures KeyTime(a) < KeyTime(b) ==> Less(a, b)
    ensures Less(a, b) ==> KeyTime(a) <= KeyTime(b)
  {
    var s: string, x: string :| Stamp(s) && a == Written(base, s, x);
    var t: string, y: string :| Stamp(t) && b == Written(base, t, y);
    StampIsFound(base, s, x);
    StampIsFound(base, t, y);
    StampsDecide(base, s, x, t, y);
  }

  lemma StampsDecide(base: string, s: string, x: string, t: string, y: string)
    requires Stamp(s) && Stamp(t)
    ensures Time(s) < Time(t) ==> Less(Written(base, s, x), Written(base, t, y))
    ensures Less(Written(base, s, x), Written(base, t, y)) ==> Time(s) <= Time(t)
  {
    TimeOrder(s, t);
    if Time(s) < Time(t) {
      LessBehind(base + ".", s, x, t, y);
    } else if Time(t) < Time(s) {
      LessBehind(base + ".", t, y, s, x);
      LessIrreflexive(Written(base, t, y), Written(base, s, x));
    }
  }

  lemma LessBehind(b: string, s: string, x: string, t: string, y: string)
    requires |s| == |t| && Less(s, t)
    ensures Less(b + s + x, b + t + y)
  {
    var k: nat :| k <= |s| && LessAt(s, t, k);
    LessLonger(s, t, k);
  }

  // What the facade asks of its strategy holds of RequestLogLoader's over written names, whatever the log types.
  lemma KeysAreMonotone(bases: LogType -> string, priorities: seq<nat>)
    requires forall h: LogType :: bases(h) != [] && '.' !in bases(h)
    ensures Monotone(OrderKey(priorities), WrittenNames(bases))
  {
    var key, names := OrderKey(priorities), WrittenNames(bases);
    forall h: LogType, a: Name, b: Name | Known(names, h, a) && Known(names, h, b) && AtMost(a, b)
      ensures key(h, a) <= key(h, b)
    {
      KeysCompare(priorities, h, b, h, a);
      ReceiverFacadeRuns.MarkIsLow(a);
      if a == UNDEFINED_STATE_MARK {
        assert FirstDot(a) == |a|;
      } else if b != UNDEFINED_STATE_MARK {
        WrittenInOrder(bases(h), b, a);
      }
    }
  }

  // The constructor leaves the list as it was given: in order if and only if no type comes before one of greater
  // priority. Until something sorts it, a thread may pick the wrong end of it.
  lemma StartsInOrder(priorities: seq<nat>, names: NamesOf, f: Facade)
    requires ReceiverFacadeRuns.Fresh(OrderKey(priorities), names, f)
    ensures Sorted(f.active, f.keys) <==>
      forall i, j :: 0 <= i < j < |f.active| ==>
        Priority(priorities, f.active[i]) >= Priority(priorities, f.active[j])
  {
    FirstKeys(OrderKey(priorities), names, f);
    forall g, h | g in f.active && h in f.active
      ensures KeyAt(f.keys, g) <= KeyAt(f.keys, h) <==> Priority(priorities, g) >= Priority(priorities, h)
    {
      KeysCompare(priorities, h, UNDEFINED_STATE_MARK, g, UNDEFINED_STATE_MARK);
    }
  }

  lemma FirstKeys(key: KeyOf, names: NamesOf, f: Facade)
    requires ReceiverFacadeRuns.Fresh(key, names, f)
    ensures forall h :: h in f.active ==> KeyAt(f.keys, h) == key(h, UNDEFINED_STATE_MARK)
  {
    var dirs, caps, order, threads :| ReceiverFacadeRuns.FreshOver(key, names, f, dirs, caps, order, threads);
    ReceiverFacadeRuns.FreshLists(key, names, f, dirs, caps, order, threads);
    ListsPartition(f);
  }

  // So nothing is assumed of the keys of RequestLogLoader's facade: over all its log types no wakeup is lost.
  lemma LoaderLosesNoWakeup(bases: LogType -> string, priorities: seq<nat>, fs: seq<Facade>,
                            ms: seq<ReceiverFacadeProtocol.Move>, i: nat, h: LogType, n: Name)
    requires forall g: LogType :: bases(g) != [] && '.' !in bases(g)
    requires ReceiverFacadeRuns.Run(OrderKey(priorities), WrittenNames(bases), fs, ms)
    requires ReceiverFacadeRuns.Fresh(OrderKey(priorities), WrittenNames(bases), fs[0]) && i <= |ms|
    requires h in fs[i].parked && h in fs[i].receivers && Available(fs[i].receivers[h].state, n)
    ensures h in fs[i].pending && exists q :: q in fs[i].pending[h] && KeyTime(q) <= KeyTime(n)
  {
    var key := OrderKey(priorities);
    KeysAreMonotone(bases, priorities);
    ReceiverFacadeRuns.NoLostWakeup(key, WrittenNames(bases), fs, ms, i, h, n);
    var q :| q in fs[i].pending[h] && key(h, q) <= key(h, n);
    KeysCompare(priorities, h, n, h, q);
  }
}
