// CollectorBundle gathers the collectors of many log files in one spillover until it is big enough to be written, or
// until a periodic task takes it.
module CollectorBundle {
  import opened Names
  import opened Options

  // A nested collector: outer keys to inner keys to a counter.
  type Collector = map<int, map<int, int>>

  // SpilloverImpl
  datatype Spillover = Spillover(collector: Collector, size: nat, files: seq<Name>, minFile: Name)

  const EMPTY: Spillover := Spillover(map[], 0, [], "")

  // ---- SizeCalculator ----

  lemma Emptied(keys: set<int>)
    requires forall x :: x !in keys
    ensures keys == {}
  {
    assert forall x: int :: x in keys <==> x in {};
  }

  lemma {:induction false} LeastKey(keys: set<int>)
    requires keys != {}
    ensures exists k :: k in keys && forall x :: x in keys ==> k <= x
    decreases |keys|
  {
    assert exists x :: x in keys by {
      if forall x :: x !in keys {
        Emptied(keys);
      }
    }
    var x :| x in keys;
    var rest := keys - {x};
    assert keys == rest + {x};
    if rest == {} {
      assert x in keys;
    } else {
      LeastKey(rest);
      var m :| m in rest && forall y :: y in rest ==> m <= y;
      var l := if x < m then x else m;
      assert l in keys && forall y :: y in keys ==> l <= y;
    }
  }

  function First(keys: set<int>): (k: int)
    requires keys != {}
    ensures k in keys && forall x :: x in keys ==> k <= x
  {
    LeastKey(keys);
    var k :| k in keys && forall x :: x in keys ==> k <= x;
    k
  }

  // The fold over the outer keys in order.
  function SizeOf(c: Collector, keys: set<int>): nat
    requires keys <= c.Keys
    decreases |keys|
  {
    if keys == {} then 0 else |c[First(keys)]| + SizeOf(c, keys - {First(keys)})
  }

  function Pairs(c: Collector, keys: set<int>): set<(int, int)>
    requires keys <= c.Keys
  {
    set k, l | k in keys && l in c[k] :: (k, l)
  }

  lemma {:induction false} RowSize(k: int, row: set<int>)
    ensures |set l | l in row :: (k, l)| == |row|
    decreases |row|
  {
    var pairs := set l | l in row :: (k, l);
    if row == {} {
      assert pairs == {};
    } else {
      assert exists x :: x in row by {
        if forall x :: x !in row {
          Emptied(row);
        }
      }
      var x :| x in row;
      var rest := set l | l in row - {x} :: (k, l);
      RowSize(k, row - {x});
      assert (k, x) !in rest;
      assert pairs == rest + {(k, x)} by {
        forall p | p in pairs ensures p in rest + {(k, x)} {
          assert p.0 == k && p.1 in row;
          if p.1 != x {
            assert p.1 in row - {x};
          }
        }
      }
    }
  }

  // The size is the number of counters.
  lemma {:induction false} SizeCountsPairs(c: Collector, keys: set<int>)
    requires keys <= c.Keys
    ensures SizeOf(c, keys) == |Pairs(c, keys)|
    decreases |keys|
  {
    if keys == {} {
      assert Pairs(c, keys) == {};
    } else {
      var k := First(keys);
      var row, rest := set l | l in c[k].Keys :: (k, l), Pairs(c, keys - {k});
      SizeCountsPairs(c, keys - {k});
      RowSize(k, c[k].Keys);
      assert |c[k].Keys| == |c[k]|;
      assert row !! rest;
      assert Pairs(c, keys) == row + rest by {
        forall p | p in Pairs(c, keys) ensures p in row + rest {
          if p.0 != k {
            assert p.0 in keys - {k};
          }
        }
      }
    }
  }

  // ---- Counters ----

  // What the collector classes are made for: the limit of a spillover, and on either level whether entries that are
  // null are left out (EXCLUDE_NULL_VALUES_).
  datatype Traits = Traits(maxSize: nat, noZeros: bool, noEmptyRows: bool)

  // What one entry of b does to the inner collector a, in add_elem.
  function MergedCounter(t: Traits, a: map<int, int>, l: int, n: int): Option<int> {
    if t.noZeros && n == 0 then Lookup(a, l)
    else if l !in a then Some(n)
    else if t.noZeros && a[l] + n == 0 then None
    else Some(a[l] + n)
  }

  function Lookup<K, V>(m: map<K, V>, k: K): Option<V> {
    if k in m then Some(m[k]) else None
  }

  function MergeRows(t: Traits, a: map<int, int>, b: map<int, int>): map<int, int> {
    map l | l in a.Keys + b.Keys && CounterAfter(t, a, b, l).Some? :: CounterAfter(t, a, b, l).value
  }

  function CounterAfter(t: Traits, a: map<int, int>, b: map<int, int>, l: int): Option<int> {
    if l in b then MergedCounter(t, a, l, b[l]) else Lookup(a, l)
  }

  // The same one level up.
  function MergedRow(t: Traits, a: Collector, k: int, row: map<int, int>): Option<map<int, int>> {
    if t.noEmptyRows && row == map[] then Lookup(a, k)
    else if k !in a then Some(row)
    else if t.noEmptyRows && MergeRows(t, a[k], row) == map[] then None
    else Some(MergeRows(t, a[k], row))
  }

  function RowAfter(t: Traits, a: Collector, b: Collector, k: int): Option<map<int, int>> {
    if k in b then MergedRow(t, a, k, b[k]) else Lookup(a, k)
  }

  function MergeCollectors(t: Traits, a: Collector, b: Collector): Collector {
    map k | k in a.Keys + b.Keys && RowAfter(t, a, b, k).Some? :: RowAfter(t, a, b, k).value
  }

  function Row(c: Collector, k: int): map<int, int> {
    if k in c then c[k] else map[]
  }

  function Counter(row: map<int, int>, l: int): int {
    if l in row then row[l] else 0
  }

  function At(c: Collector, k: int, l: int): int {
    Counter(Row(c, k), l)
  }

  lemma RowsAdd(t: Traits, a: map<int, int>, b: map<int, int>, l: int)
    ensures Counter(MergeRows(t, a, b), l) == Counter(a, l) + Counter(b, l)
  {
  }

  // Whatever is left out, merging adds counter by counter.
  lemma MergeAddsAt(t: Traits, a: Collector, b: Collector, k: int, l: int)
    ensures At(MergeCollectors(t, a, b), k, l) == At(a, k, l) + At(b, k, l)
  {
    RowsAdd(t, Row(a, k), Row(b, k), l);
  }

  // With zeros left out and none there before, the merged inner collector has exactly the counters that are not zero.
  lemma ZerosLeave(t: Traits, a: map<int, int>, b: map<int, int>, l: int)
    requires t.noZeros && forall x :: x in a ==> a[x] != 0
    ensures l in MergeRows(t, a, b) <==> Counter(a, l) + Counter(b, l) != 0
  {
  }

  // Whether the entry for l in b has a say, and what there is for l after it.
  predicate Speaks(t: Traits, b: map<int, int>, l: int) {
    l in b && (t.noZeros ==> b[l] != 0)
  }

  predicate CounterStays(t: Traits, a: map<int, int>, b: map<int, int>, l: int) {
    if Speaks(t, b, l) then t.noZeros ==> Counter(a, l) + b[l] != 0 else l in a
  }

  // For every choice of what is left out: the counters that are there after a merge. One row is copied, two are merged.
  lemma CountersStay(t: Traits, a: Collector, b: Collector, k: int, l: int)
    ensures l in Row(MergeCollectors(t, a, b), k) <==>
      if k in a && k in b then CounterStays(t, a[k], b[k], l) else l in Row(a, k) || l in Row(b, k)
  {
    if k in a && k in b && b[k] != map[] && t.noEmptyRows && MergeRows(t, a[k], b[k]) == map[] {
      assert l !in MergeRows(t, a[k], b[k]);
    }
  }

  // For every choice of what is left out: the inner collectors that are there. Kept when empty, there is one for every
  // key; left out when empty, there is none that b brought or made empty, and b's empty ones change nothing.
  lemma RowsStay(t: Traits, a: Collector, b: Collector, k: int)
    ensures var m := MergeCollectors(t, a, b);
      && (!t.noEmptyRows ==> (k in m <==> k in a || k in b))
      && (t.noEmptyRows && Row(b, k) != map[] ==> (k in m <==> Row(m, k) != map[]))
      && (t.noEmptyRows && Row(b, k) == map[] ==> (k in m <==> k in a) && Row(m, k) == Row(a, k))
  {
    CountersStay(t, a, b, k, 0);
  }

  // ---- One spillover ----

  // One call of CollectorBundle::merge.
  datatype Input = Input(collector: Collector, file: Name)

  function PushBack(s: Spillover, file: Name): Spillover {
    s.(files := s.files + [file], minFile := if s.minFile != "" && !Less(file, s.minFile) then s.minFile else file)
  }

  // An empty collector is swapped with the new one.
  function Gathered(t: Traits, s: Collector, x: Collector): Collector {
    if s == map[] then x else MergeCollectors(t, s, x)
  }

  lemma GatheredAdds(t: Traits, s: Collector, x: Collector, k: int, l: int)
    ensures At(Gathered(t, s, x), k, l) == At(s, k, l) + At(x, k, l)
  {
    MergeAddsAt(t, s, x, k, l);
  }

  function Pushed(t: Traits, s: Spillover, x: Input): Spillover {
    var c := Gathered(t, s.collector, x.collector);
    PushBack(s, x.file).(collector := c, size := SizeOf(c, c.Keys))
  }

  function Filled(t: Traits, xs: seq<Input>): Spillover {
    if xs == [] then EMPTY else Pushed(t, Filled(t, xs[..|xs| - 1]), xs[|xs| - 1])
  }

  function Files(xs: seq<Input>): seq<Name> {
    seq(|xs|, i requires 0 <= i < |xs| => xs[i].file)
  }

  function Sum(xs: seq<Input>, k: int, l: int): int {
    if xs == [] then 0 else Sum(xs[..|xs| - 1], k, l) + At(xs[|xs| - 1].collector, k, l)
  }

  // A spillover holds the sums of what was merged into it.
  lemma {:induction false} FilledSums(t: Traits, xs: seq<Input>, k: int, l: int)
    ensures At(Filled(t, xs).collector, k, l) == Sum(xs, k, l)
    decreases |xs|
  {
    if xs != [] {
      var front := Filled(t, xs[..|xs| - 1]).collector;
      FilledSums(t, xs[..|xs| - 1], k, l);
      GatheredAdds(t, front, xs[|xs| - 1].collector, k, l);
      assert Filled(t, xs).collector == Gathered(t, front, xs[|xs| - 1].collector);
    }
  }

  // And the guards of those files.
  lemma {:induction false} FilledFiles(t: Traits, xs: seq<Input>)
    ensures Filled(t, xs).files == Files(xs)
    decreases |xs|
  {
    if xs == [] {
      assert Files(xs) == [];
    } else {
      FilledFiles(t, xs[..|xs| - 1]);
      assert Files(xs) == Files(xs[..|xs| - 1]) + [xs[|xs| - 1].file];
    }
  }

  lemma FilledSize(t: Traits, xs: seq<Input>)
    ensures Filled(t, xs).size == |Pairs(Filled(t, xs).collector, Filled(t, xs).collector.Keys)|
  {
    var c := Filled(t, xs).collector;
    SizeCountsPairs(c, c.Keys);
  }

  // The recorded file name is the least one; it is "" only when there is no file.
  lemma {:induction false} MinFileIsLeast(t: Traits, xs: seq<Input>)
    requires forall i :: 0 <= i < |xs| ==> xs[i].file != ""
    ensures Filled(t, xs).minFile == "" <==> xs == []
    ensures xs != [] ==> exists i :: 0 <= i < |xs| && xs[i].file == Filled(t, xs).minFile
    ensures forall i :: 0 <= i < |xs| ==> AtMost(Filled(t, xs).minFile, xs[i].file)
    decreases |xs|
  {
    if xs != [] {
      Order();
      var front := xs[..|xs| - 1];
      MinFileIsLeast(t, front);
      var m := Filled(t, front).minFile;
      if m != "" && !Less(xs[|xs| - 1].file, m) {
        var i :| 0 <= i < |front| && front[i].file == m;
        assert xs[i].file == m;
      }
      forall i | 0 <= i < |xs| ensures AtMost(Filled(t, xs).minFile, xs[i].file) {
        if i < |front| {
          assert AtMost(m, front[i].file);
        }
      }
    }
  }

  // ---- Any run of merge and take_data ----

  datatype Step = MergeStep(input: Input) | TakeStep

  // out: what was dumped and taken, in order.
  datatype Bundle = Bundle(data: Spillover, out: seq<Spillover>)

  function Do(t: Traits, b: Bundle, step: Step): Bundle {
    match step
    case MergeStep(x) =>
      var s := Pushed(t, b.data, x);
      if s.size >= t.maxSize then Bundle(EMPTY, b.out + [s]) else Bundle(s, b.out)
    case TakeStep => if b.data.size != 0 then Bundle(EMPTY, b.out + [b.data]) else b
  }

  function After(t: Traits, steps: seq<Step>): Bundle {
    if steps == [] then Bundle(EMPTY, []) else Do(t, After(t, steps[..|steps| - 1]), steps[|steps| - 1])
  }

  function Inputs(steps: seq<Step>): seq<Input> {
    if steps == [] then []
    else
      Inputs(steps[..|steps| - 1])
      + (match steps[|steps| - 1] case MergeStep(x) => [x] case TakeStep => [])
  }

  function Flatten(parts: seq<seq<Input>>): seq<Input> {
    if parts == [] then [] else Flatten(parts[..|parts| - 1]) + parts[|parts| - 1]
  }

  // The inputs, cut into consecutive parts: one for each spillover that went out and one for the data that is left.
  ghost predicate Shares(t: Traits, b: Bundle, parts: seq<seq<Input>>, rest: seq<Input>, all: seq<Input>) {
    && |parts| == |b.out| && Flatten(parts) + rest == all && b.data == Filled(t, rest)
    && forall i :: 0 <= i < |parts| ==> b.out[i] == Filled(t, parts[i])
  }

  lemma MergeShares(t: Traits, b: Bundle, x: Input, parts: seq<seq<Input>>, rest: seq<Input>, all: seq<Input>)
    returns (parts': seq<seq<Input>>, rest': seq<Input>)
    requires Shares(t, b, parts, rest, all)
    ensures Shares(t, Do(t, b, MergeStep(x)), parts', rest', all + [x])
  {
    var s := Pushed(t, b.data, x);
    assert (rest + [x])[..|rest|] == rest;
    assert Filled(t, rest + [x]) == s;
    assert Flatten(parts) + (rest + [x]) == all + [x];
    if s.size >= t.maxSize {
      parts', rest' := OutShares(t, Bundle(s, b.out), parts, rest + [x], all + [x]);
    } else {
      parts', rest' := parts, rest + [x];
    }
  }

  // The spillover goes out.
  lemma OutShares(t: Traits, b: Bundle, parts: seq<seq<Input>>, rest: seq<Input>, all: seq<Input>)
    returns (parts': seq<seq<Input>>, rest': seq<Input>)
    requires Shares(t, b, parts, rest, all)
    ensures Shares(t, Bundle(EMPTY, b.out + [b.data]), parts', rest', all)
  {
    parts', rest' := parts + [rest], [];
    assert parts'[..|parts|] == parts;
    assert Flatten(parts') + [] == Flatten(parts) + rest;
  }

  lemma {:induction false} EverythingIsShared(t: Traits, steps: seq<Step>)
    returns (parts: seq<seq<Input>>, rest: seq<Input>)
    ensures Shares(t, After(t, steps), parts, rest, Inputs(steps))
    ensures var c := After(t, steps).data.collector;
      After(t, steps).data.size == |Pairs(c, c.Keys)| && (t.maxSize >= 1 ==> |Pairs(c, c.Keys)| < t.maxSize)
    decreases |steps|
  {
    if steps == [] {
      parts, rest := [], [];
    } else {
      var before, step := After(t, steps[..|steps| - 1]), steps[|steps| - 1];
      parts, rest := EverythingIsShared(t, steps[..|steps| - 1]);
      match step
      case MergeStep(x) => parts, rest := MergeShares(t, before, x, parts, rest, Inputs(steps[..|steps| - 1]));
      case TakeStep =>
        assert Inputs(steps) == Inputs(steps[..|steps| - 1]);
        if before.data.size != 0 {
          parts, rest := OutShares(t, before, parts, rest, Inputs(steps));
        }
    }
    FilledSize(t, rest);
    Bounded(t, steps);
  }

  lemma {:induction false} Bounded(t: Traits, steps: seq<Step>)
    ensures t.maxSize >= 1 ==> After(t, steps).data.size < t.maxSize
    decreases |steps|
  {
    if steps != [] {
      Bounded(t, steps[..|steps| - 1]);
    }
  }

  // The counters that have not gone out.
  function Left(b: Bundle): set<(int, int)> {
    Pairs(b.data.collector, b.data.collector.Keys)
  }

  // The size that is kept is how many there are, in every run.
  lemma SizeIsLeft(t: Traits, steps: seq<Step>)
    ensures After(t, steps).data.size == |Left(After(t, steps))|
  {
    var parts, rest := EverythingIsShared(t, steps);
  }

  // After take_data no counter is left. What went out is the spillover that was in place, if it had any counter, and
  // otherwise nothing.
  lemma TakenWhole(t: Traits, steps: seq<Step>)
    ensures var b, a := After(t, steps), After(t, steps + [TakeStep]);
      && Left(a) == {}
      && (if Left(b) == {} then a == b
          else a.out == b.out + [b.data] && a.data.files == [] && a.data.collector == map[])
  {
    assert (steps + [TakeStep])[..|steps|] == steps;
    SizeIsLeft(t, steps);
    SizeIsLeft(t, steps + [TakeStep]);
  }

  // A merge gives the spillover out, with the new input in it, exactly when it then has maxSize counters or more.
  lemma GivenOutExactly(t: Traits, steps: seq<Step>, x: Input)
    ensures var b, a := After(t, steps), After(t, steps + [MergeStep(x)]);
      var c := Gathered(t, b.data.collector, x.collector);
      if |Pairs(c, c.Keys)| >= t.maxSize then
        && |a.out| == |b.out| + 1 && a.out[..|b.out|] == b.out
        && a.out[|b.out|].collector == c && a.out[|b.out|].files == b.data.files + [x.file]
        && a.data.collector == map[] && a.data.files == []
      else a.out == b.out && a.data.collector == c && a.data.files == b.data.files + [x.file]
  {
    var b := After(t, steps);
    var c := Gathered(t, b.data.collector, x.collector);
    assert (steps + [MergeStep(x)])[..|steps|] == steps;
    SizeCountsPairs(c, c.Keys);
  }

  function OutSum(out: seq<Spillover>, k: int, l: int): int {
    if out == [] then 0 else OutSum(out[..|out| - 1], k, l) + At(out[|out| - 1].collector, k, l)
  }

  function OutFiles(out: seq<Spillover>): seq<Name> {
    if out == [] then [] else OutFiles(out[..|out| - 1]) + out[|out| - 1].files
  }

  lemma {:induction false} SumOfBoth(a: seq<Input>, b: seq<Input>, k: int, l: int)
    ensures Sum(a + b, k, l) == Sum(a, k, l) + Sum(b, k, l) && Files(a + b) == Files(a) + Files(b)
    decreases |b|
  {
    if b == [] {
      assert a + b == a;
    } else {
      assert (a + b)[..|a + b| - 1] == a + b[..|b| - 1];
      SumOfBoth(a, b[..|b| - 1], k, l);
    }
  }

  lemma {:induction false} SharesAddUp(t: Traits, parts: seq<seq<Input>>, out: seq<Spillover>, k: int, l: int)
    requires |parts| == |out| && forall i :: 0 <= i < |parts| ==> out[i] == Filled(t, parts[i])
    ensures OutSum(out, k, l) == Sum(Flatten(parts), k, l) && OutFiles(out) == Files(Flatten(parts))
    decreases |parts|
  {
    if parts == [] {
      assert Files(Flatten(parts)) == [];
    } else {
      var n := |parts| - 1;
      SharesAddUp(t, parts[..n], out[..n], k, l);
      SumOfBoth(Flatten(parts[..n]), parts[n], k, l);
      FilledSums(t, parts[n], k, l);
      FilledFiles(t, parts[n]);
    }
  }

  // Over any run, what was dumped, what was taken and what is left add up to what was merged, counter by counter, and
  // every file guard is in exactly one of them, in the order of the merges.
  lemma NothingIsLost(t: Traits, steps: seq<Step>, k: int, l: int)
    ensures var b := After(t, steps);
      && OutSum(b.out, k, l) + At(b.data.collector, k, l) == Sum(Inputs(steps), k, l)
      && OutFiles(b.out) + b.data.files == Files(Inputs(steps))
  {
    var b := After(t, steps);
    var parts, rest := EverythingIsShared(t, steps);
    SharesAddUp(t, parts, b.out, k, l);
    FilledSums(t, rest, k, l);
    FilledFiles(t, rest);
    SumOfBoth(Flatten(parts), rest, k, l);
  }

  // ---- The classes ----

  class SpilloverImpl {
    var collector: Collector
    var collectorSize: nat
    var files: seq<Name>
    var minFile: Name

    function View(): Spillover
      reads this
    {
      Spillover(collector, collectorSize, files, minFile)
    }

    constructor ()
      ensures View() == EMPTY
    {
      collector, collectorSize, files, minFile := map[], 0, [], "";
    }

    method PushBackFile(file: Name)
      modifies this
      ensures View() == PushBack(old(View()), file)
    {
      files := files + [file];
      if minFile != "" {
        if Less(file, minFile) {
          minFile := file;
        }
      } else {
        minFile := file;
      }
    }
  }

  class CollectorBundle {
    const traits: Traits
    var data: SpilloverImpl

    constructor (traits: Traits)
      ensures this.traits == traits && fresh(data) && data.View() == EMPTY
    {
      this.traits := traits;
      data := new SpilloverImpl();
    }

    // ready is given to the saver outside the lock.
    method Merge(fileCollector: Collector, file: Name) returns (ready: SpilloverImpl?)
      modifies this, data
      ensures var b := Do(traits, Bundle(old(data.View()), []), MergeStep(Input(fileCollector, file)));
        && data.View() == b.data
        && (if b.out == [] then ready == null && data == old(data)
            else ready != null && ready == old(data) && fresh(data) && ready.View() == b.out[0])
    {
      if data.collector == map[] {
        data.collector := fileCollector;
      } else {
        data.collector := MergeCollectors(traits, data.collector, fileCollector);
      }
      data.PushBackFile(file);
      data.collectorSize := SizeOf(data.collector, data.collector.Keys);
      if data.collectorSize >= traits.maxSize {
        ready := data;
        data := new SpilloverImpl();
      } else {
        ready := null;
      }
    }

    method TakeData() returns (taken: SpilloverImpl?)
      modifies this
      ensures var b := Do(traits, Bundle(old(data.View()), []), TakeStep);
        && data.View() == b.data
        && (if b.out == [] then taken == null && data == old(data)
            else taken != null && taken == old(data) && fresh(data) && taken.View() == b.out[0])
    {
      taken := null;
      if data.collectorSize != 0 {
        taken := data;
        data := new SpilloverImpl();
      }
    }
  }
}
