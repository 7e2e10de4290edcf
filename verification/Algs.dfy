// The merges of Algs.hpp over sorted ranges.
module Algs {
  import opened Options

  // less_op compares keys only.
  datatype Entry = Entry(key: int, value: int)

  predicate Sorted(s: seq<Entry>) {
    forall i, j :: 0 <= i < j < |s| ==> s[i].key <= s[j].key
  }

  // ---- custom_merge_n ----

  function Elements(ranges: seq<seq<Entry>>): multiset<Entry> {
    if ranges == [] then multiset{} else multiset(ranges[0]) + Elements(ranges[1..])
  }

  function Length(ranges: seq<seq<Entry>>): nat {
    if ranges == [] then 0 else |ranges[0]| + Length(ranges[1..])
  }

  // insert of std::multiset: behind the ranges whose first element is not greater.
  function Insert(ranges: seq<seq<Entry>>, r: seq<Entry>): seq<seq<Entry>>
    requires r != [] && forall i :: 0 <= i < |ranges| ==> ranges[i] != []
  {
    if ranges == [] || r[0].key < ranges[0][0].key then [r] + ranges else [ranges[0]] + Insert(ranges[1..], r)
  }

  ghost predicate RangeSet(ranges: seq<seq<Entry>>) {
    && (forall i :: 0 <= i < |ranges| ==> ranges[i] != [])
    && (forall i, j :: 0 <= i < j < |ranges| ==> ranges[i][0].key <= ranges[j][0].key)
  }

  ghost predicate AllSorted(ranges: seq<seq<Entry>>) {
    forall i :: 0 <= i < |ranges| ==> Sorted(ranges[i])
  }

  lemma {:induction false} InsertAdds(ranges: seq<seq<Entry>>, r: seq<Entry>)
    requires r != [] && forall i :: 0 <= i < |ranges| ==> ranges[i] != []
    ensures Elements(Insert(ranges, r)) == Elements(ranges) + multiset(r)
    ensures Length(Insert(ranges, r)) == Length(ranges) + |r|
    ensures forall x :: x in Insert(ranges, r) <==> x in ranges || x == r
    decreases |ranges|
  {
    if ranges == [] || r[0].key < ranges[0][0].key {
      assert ([r] + ranges)[1..] == ranges;
    } else {
      InsertAdds(ranges[1..], r);
      assert ([ranges[0]] + Insert(ranges[1..], r))[1..] == Insert(ranges[1..], r);
    }
  }

  lemma {:induction false} InsertOrdered(ranges: seq<seq<Entry>>, r: seq<Entry>)
    requires r != [] && RangeSet(ranges)
    ensures RangeSet(Insert(ranges, r))
    decreases |ranges|
  {
    if ranges != [] && r[0].key >= ranges[0][0].key {
      var rest: seq<seq<Entry>> := Insert(ranges[1..], r);
      InsertOrdered(ranges[1..], r);
      InsertAdds(ranges[1..], r);
      forall j | 0 <= j < |rest| ensures ranges[0][0].key <= rest[j][0].key {
        assert rest[j] in rest;
        assert rest[j] == r || rest[j] in ranges[1..];
      }
    }
  }

  lemma InsertKeeps(ranges: seq<seq<Entry>>, r: seq<Entry>)
    requires r != [] && RangeSet(ranges)
    ensures RangeSet(Insert(ranges, r))
    ensures Elements(Insert(ranges, r)) == Elements(ranges) + multiset(r)
    ensures Length(Insert(ranges, r)) == Length(ranges) + |r|
    ensures forall x :: x in Insert(ranges, r) <==> x in ranges || x == r
  {
    InsertAdds(ranges, r);
    InsertOrdered(ranges, r);
  }

  lemma {:induction false} InElements(ranges: seq<seq<Entry>>, x: Entry)
    ensures x in Elements(ranges) <==> exists i :: 0 <= i < |ranges| && x in ranges[i]
    decreases |ranges|
  {
    if ranges != [] {
      InElements(ranges[1..], x);
      assert forall i :: 0 <= i < |ranges[1..]| ==> ranges[1..][i] == ranges[i + 1];
      if i :| 0 <= i < |ranges| && x in ranges[i] {
        assert i > 0 ==> x in ranges[1..][i - 1];
      }
    }
  }

  // The first element of the first range is the least of all.
  lemma FrontIsLeast(ranges: seq<seq<Entry>>, x: Entry)
    requires RangeSet(ranges) && AllSorted(ranges) && ranges != [] && x in Elements(ranges)
    ensures ranges[0][0].key <= x.key
  {
    InElements(ranges, x);
    var i :| 0 <= i < |ranges| && x in ranges[i];
    var k :| 0 <= k < |ranges[i]| && ranges[i][k] == x;
    assert ranges[i][0].key <= ranges[i][k].key;
  }

  lemma {:induction false} ElementsAppended(ranges: seq<seq<Entry>>, r: seq<Entry>)
    ensures Elements(ranges + [r]) == Elements(ranges) + multiset(r)
    decreases |ranges|
  {
    if ranges == [] {
      assert ranges + [r] == [r] && [r][1..] == [];
    } else {
      ElementsAppended(ranges[1..], r);
      assert (ranges + [r])[1..] == ranges[1..] + [r];
    }
  }

  lemma InsertSorted(ranges: seq<seq<Entry>>, r: seq<Entry>)
    requires r != [] && RangeSet(ranges)
    ensures AllSorted(ranges) && Sorted(r) ==> AllSorted(Insert(ranges, r))
  {
    InsertKeeps(ranges, r);
    if AllSorted(ranges) && Sorted(r) {
      forall i | 0 <= i < |Insert(ranges, r)| ensures Sorted(Insert(ranges, r)[i]) {
        assert Insert(ranges, r)[i] in Insert(ranges, r);
      }
    }
  }

  ghost predicate Below(output: seq<Entry>, rest: multiset<Entry>) {
    forall i, x :: 0 <= i < |output| && x in rest ==> output[i].key <= x.key
  }

  // The set after the first element of the first range was taken.
  function Popped(ranges: seq<seq<Entry>>): seq<seq<Entry>>
    requires ranges != [] && forall i :: 0 <= i < |ranges| ==> ranges[i] != []
  {
    if ranges[0][1..] == [] then ranges[1..] else Insert(ranges[1..], ranges[0][1..])
  }

  lemma PoppedKeeps(ranges: seq<seq<Entry>>)
    requires RangeSet(ranges) && ranges != []
    ensures RangeSet(Popped(ranges)) && Length(Popped(ranges)) < Length(ranges)
    ensures Elements(ranges) == multiset{ranges[0][0]} + Elements(Popped(ranges))
    ensures AllSorted(ranges) ==> AllSorted(Popped(ranges))
  {
    HeadApart(ranges[0]);
    PoppedOrdered(ranges);
    if ranges[0][1..] != [] {
      InsertAdds(ranges[1..], ranges[0][1..]);
    }
  }

  lemma PoppedOrdered(ranges: seq<seq<Entry>>)
    requires RangeSet(ranges) && ranges != []
    ensures RangeSet(Popped(ranges)) && (AllSorted(ranges) ==> AllSorted(Popped(ranges)))
  {
    if ranges[0][1..] != [] {
      InsertOrdered(ranges[1..], ranges[0][1..]);
      InsertSorted(ranges[1..], ranges[0][1..]);
    }
  }

  lemma HeadApart(s: seq<Entry>)
    requires s != []
    ensures multiset(s) == multiset{s[0]} + multiset(s[1..])
  {
    assert s == [s[0]] + s[1..];
  }

  lemma SortedGrows(output: seq<Entry>, ranges: seq<seq<Entry>>)
    requires RangeSet(ranges) && ranges != [] && AllSorted(ranges)
    requires Sorted(output) && Below(output, Elements(ranges))
    ensures Sorted(output + [ranges[0][0]]) && Below(output + [ranges[0][0]], Elements(Popped(ranges)))
  {
    PoppedKeeps(ranges);
    var x := ranges[0][0];
    assert x in Elements(ranges);
    forall y | y in Elements(Popped(ranges)) ensures x.key <= y.key && y in Elements(ranges) {
      FrontIsLeast(ranges, y);
    }
  }

  // The front entry of each range that has one, sorted.
  method InitRangeSet(ranges: seq<seq<Entry>>) returns (rangeSet: seq<seq<Entry>>)
    ensures RangeSet(rangeSet) && Elements(rangeSet) == Elements(ranges)
    ensures AllSorted(ranges) ==> AllSorted(rangeSet)
  {
    rangeSet := [];
    for n := 0 to |ranges|
      invariant RangeSet(rangeSet) && Elements(rangeSet) == Elements(ranges[..n])
      invariant AllSorted(ranges) ==> AllSorted(rangeSet)
    {
      ElementsAppended(ranges[..n], ranges[n]);
      assert ranges[..n + 1] == ranges[..n] + [ranges[n]];
      if ranges[n] != [] {
        InsertKeeps(rangeSet, ranges[n]);
        InsertSorted(rangeSet, ranges[n]);
        rangeSet := Insert(rangeSet, ranges[n]);
      }
    }
    assert ranges[..|ranges|] == ranges;
  }

  // The output is made of all elements of all ranges, and it is sorted if they were.
  method CustomMergeN(ranges: seq<seq<Entry>>) returns (output: seq<Entry>)
    ensures multiset(output) == Elements(ranges)
    ensures AllSorted(ranges) ==> Sorted(output)
  {
    var rangeSet := InitRangeSet(ranges);
    output := [];
    while rangeSet != []
      invariant RangeSet(rangeSet) && multiset(output) + Elements(rangeSet) == Elements(ranges)
      invariant AllSorted(ranges) ==> AllSorted(rangeSet) && Sorted(output) && Below(output, Elements(rangeSet))
      decreases Length(rangeSet)
    {
      PoppedKeeps(rangeSet);
      if AllSorted(ranges) {
        SortedGrows(output, rangeSet);
      }
      ghost var after := Popped(rangeSet);
      output := output + [rangeSet[0][0]];
      // The range whose entry was taken goes back in by its next entry.
      var curRange := rangeSet[0];
      rangeSet := rangeSet[1..];
      curRange := curRange[1..];
      if curRange != [] {
        rangeSet := Insert(rangeSet, curRange);
      }
      assert rangeSet == after;
    }
  }

  // ---- merge_unique and cross ----

  predicate Strict(s: seq<Entry>) {
    forall i, j :: 0 <= i < j < |s| ==> s[i].key < s[j].key
  }

  function Lookup(s: seq<Entry>, key: int): Option<int> {
    if s == [] then None else if s[0].key == key then Some(s[0].value) else Lookup(s[1..], key)
  }

  function Union(op: (int, int) -> int, a: Option<int>, b: Option<int>): Option<int> {
    if a.None? then b else if b.None? then a else Some(op(a.value, b.value))
  }

  function Intersection(op: (int, int) -> int, a: Option<int>, b: Option<int>): Option<int> {
    if a.None? || b.None? then None else Some(op(a.value, b.value))
  }

  function OrElse(a: Option<int>, b: Option<int>): Option<int> {
    if a.Some? then a else b
  }

  lemma {:induction false} LookupSum(a: seq<Entry>, b: seq<Entry>, key: int)
    ensures Lookup(a + b, key) == OrElse(Lookup(a, key), Lookup(b, key))
    decreases |a|
  {
    if a == [] {
      assert a + b == b;
    } else {
      LookupSum(a[1..], b, key);
      assert (a + b)[1..] == a[1..] + b;
    }
  }

  lemma {:induction false} NotFound(s: seq<Entry>, key: int)
    requires forall i :: 0 <= i < |s| ==> s[i].key != key
    ensures Lookup(s, key) == None
    decreases |s|
  {
    if s != [] {
      NotFound(s[1..], key);
    }
  }

  // Everything before is smaller than everything behind.
  ghost predicate Ahead(out: seq<Entry>, rest: seq<Entry>) {
    forall i, j :: 0 <= i < |out| && 0 <= j < |rest| ==> out[i].key < rest[j].key
  }

  // The first of a strict sequence is found at its key and nothing behind it is.
  lemma FirstFound(s: seq<Entry>, key: int)
    requires Strict(s) && s != []
    ensures Lookup(s, key) == if key == s[0].key then Some(s[0].value) else Lookup(s[1..], key)
    ensures key <= s[0].key ==> Lookup(s[1..], key) == None
  {
    if key <= s[0].key {
      NotFound(s[1..], key);
    }
  }

  ghost predicate MergedSoFar(op: (int, int) -> int, first: seq<Entry>, second: seq<Entry>, out: seq<Entry>,
                              a: seq<Entry>, b: seq<Entry>)
  {
    && Strict(out) && Ahead(out, a) && Ahead(out, b)
    && forall k :: Union(op, Lookup(first, k), Lookup(second, k))
         == OrElse(Lookup(out, k), Union(op, Lookup(a, k), Lookup(b, k)))
  }

  lemma MergeStep(op: (int, int) -> int, first: seq<Entry>, second: seq<Entry>, out: seq<Entry>, a: seq<Entry>,
                  b: seq<Entry>, x: Entry, a': seq<Entry>, b': seq<Entry>)
    requires MergedSoFar(op, first, second, out, a, b) && Strict(a) && Strict(b) && a != [] && b != []
    requires if a[0].key < b[0].key then x == a[0] && a' == a[1..] && b' == b
      else if b[0].key < a[0].key then x == b[0] && a' == a && b' == b[1..]
      else x == Entry(a[0].key, op(a[0].value, b[0].value)) && a' == a[1..] && b' == b[1..]
    ensures MergedSoFar(op, first, second, out + [x], a', b')
  {
    forall k ensures Union(op, Lookup(first, k), Lookup(second, k))
      == OrElse(Lookup(out + [x], k), Union(op, Lookup(a', k), Lookup(b', k)))
    {
      LookupSum(out, [x], k);
      FirstFound(a, k);
      FirstFound(b, k);
      if k == x.key {
        NotFound(out, k);
        if k < a[0].key {
          NotFound(a, k);
        }
        if k < b[0].key {
          NotFound(b, k);
        }
      }
      assert Lookup([x], k) == if k == x.key then Some(x.value) else None;
    }
  }

  // The keys of either range, each once and in order; merge_op joins the values of a key of both.
  method MergeUnique(first: seq<Entry>, second: seq<Entry>, mergeOp: (int, int) -> int) returns (output: seq<Entry>)
    requires Strict(first) && Strict(second)
    ensures Strict(output)
    ensures forall k :: Lookup(output, k) == Union(mergeOp, Lookup(first, k), Lookup(second, k))
  {
    output := [];
    var i, j := 0, 0;
    assert first[0..] == first && second[0..] == second;
    while i != |first| && j != |second|
      invariant i <= |first| && j <= |second|
      invariant MergedSoFar(mergeOp, first, second, output, first[i..], second[j..])
      decreases |first| - i + |second| - j
    {
      ghost var a, b, out := first[i..], second[j..], output;
      if first[i].key < second[j].key {
        output := output + [first[i]];
        i := i + 1;
      } else if second[j].key < first[i].key {
        output := output + [second[j]];
        j := j + 1;
      } else {
        output := output + [Entry(first[i].key, mergeOp(first[i].value, second[j].value))];
        i := i + 1;
        j := j + 1;
      }
      MergeStep(mergeOp, first, second, out, a, b, output[|out|], first[i..], second[j..]);
    }
    MergeEnd(mergeOp, first, second, output, first[i..], second[j..]);
    output := output + second[j..] + first[i..];
  }

  lemma MergeEnd(op: (int, int) -> int, first: seq<Entry>, second: seq<Entry>, out: seq<Entry>, a: seq<Entry>,
                 b: seq<Entry>)
    requires MergedSoFar(op, first, second, out, a, b) && Strict(a) && Strict(b) && (a == [] || b == [])
    ensures Strict(out + b + a)
    ensures forall k :: Lookup(out + b + a, k) == Union(op, Lookup(first, k), Lookup(second, k))
  {
    var rest := if a == [] then b else a;
    assert out + b + a == out + rest;
    forall k ensures Lookup(out + rest, k) == Union(op, Lookup(first, k), Lookup(second, k)) {
      LookupSum(out, rest, k);
    }
  }

  ghost predicate CrossedSoFar(op: (int, int) -> int, first: seq<Entry>, second: seq<Entry>, out: seq<Entry>,
                               a: seq<Entry>, b: seq<Entry>)
  {
    && Strict(out) && Ahead(out, a) && Ahead(out, b)
    && forall k :: Intersection(op, Lookup(first, k), Lookup(second, k))
         == OrElse(Lookup(out, k), Intersection(op, Lookup(a, k), Lookup(b, k)))
  }

  lemma CrossStep(op: (int, int) -> int, first: seq<Entry>, second: seq<Entry>, out: seq<Entry>, a: seq<Entry>,
                  b: seq<Entry>, more: seq<Entry>, a': seq<Entry>, b': seq<Entry>)
    requires CrossedSoFar(op, first, second, out, a, b) && Strict(a) && Strict(b) && a != [] && b != []
    requires if a[0].key < b[0].key then more == [] && a' == a[1..] && b' == b
      else if b[0].key < a[0].key then more == [] && a' == a && b' == b[1..]
      else more == [Entry(a[0].key, op(a[0].value, b[0].value))] && a' == a[1..] && b' == b[1..]
    ensures CrossedSoFar(op, first, second, out + more, a', b')
  {
    forall k ensures Intersection(op, Lookup(first, k), Lookup(second, k))
      == OrElse(Lookup(out + more, k), Intersection(op, Lookup(a', k), Lookup(b', k)))
    {
      LookupSum(out, more, k);
      FirstFound(a, k);
      FirstFound(b, k);
      if k < b[0].key {
        NotFound(b, k);
      }
      if k < a[0].key {
        NotFound(a, k);
      }
      if more != [] && k == more[0].key {
        NotFound(out, k);
      }
    }
  }

  // The keys of both ranges, in order.
  method Cross(first: seq<Entry>, second: seq<Entry>, crossOp: (int, int) -> int) returns (output: seq<Entry>)
    requires Strict(first) && Strict(second)
    ensures Strict(output)
    ensures forall k :: Lookup(output, k) == Intersection(crossOp, Lookup(first, k), Lookup(second, k))
  {
    output := [];
    var i, j := 0, 0;
    assert first[0..] == first && second[0..] == second;
    while i != |first| && j != |second|
      invariant i <= |first| && j <= |second|
      invariant CrossedSoFar(crossOp, first, second, output, first[i..], second[j..])
      decreases |first| - i + |second| - j
    {
      ghost var a, b, out := first[i..], second[j..], output;
      if first[i].key < second[j].key {
        i := i + 1;
      } else if second[j].key < first[i].key {
        j := j + 1;
      } else {
        output := output + [Entry(first[i].key, crossOp(first[i].value, second[j].value))];
        i := i + 1;
        j := j + 1;
      }
      CrossStep(crossOp, first, second, out, a, b, output[|out|..], first[i..], second[j..]);
      assert out + output[|out|..] == output;
    }
  }
}
