// IntervalSet: a std::set of half-open intervals over an unsigned type, ordered by lower and then by upper end.
module Intervals {

  datatype Interval = Interval(min: nat, max: nat)

  // operator<
  predicate Before(a: Interval, b: Interval) {
    a.min < b.min || (a.min == b.min && a.max < b.max)
  }

  predicate AtMost(a: Interval, b: Interval) {
    a == b || Before(a, b)
  }

  // ---- The ends of a std::set ----

  lemma {:induction false} LeastExists(s: set<Interval>)
    requires s != {}
    ensures exists m :: m in s && forall x :: x in s ==> AtMost(m, x)
    decreases |s|
  {
    var x :| x in s;
    var rest := s - {x};
    assert s == rest + {x};
    if rest == {} {
      assert forall y :: y in s ==> AtMost(x, y);
    } else {
      LeastExists(rest);
      var m :| m in rest && forall y :: y in rest ==> AtMost(m, y);
      var l := if Before(x, m) then x else m;
      assert forall y :: y in s ==> AtMost(l, y);
    }
  }

  lemma {:induction false} GreatestExists(s: set<Interval>)
    requires s != {}
    ensures exists m :: m in s && forall x :: x in s ==> AtMost(x, m)
    decreases |s|
  {
    var x :| x in s;
    var rest := s - {x};
    assert s == rest + {x};
    if rest == {} {
      assert forall y :: y in s ==> AtMost(y, x);
    } else {
      GreatestExists(rest);
      var m :| m in rest && forall y :: y in rest ==> AtMost(y, m);
      var l := if Before(m, x) then x else m;
      assert forall y :: y in s ==> AtMost(y, l);
    }
  }

  // *s.begin()
  function Least(s: set<Interval>): (m: Interval)
    requires s != {}
    ensures m in s && forall x :: x in s ==> AtMost(m, x)
  {
    LeastExists(s);
    var m :| m in s && forall x :: x in s ==> AtMost(m, x);
    m
  }

  // *s.rbegin()
  function Greatest(s: set<Interval>): (m: Interval)
    requires s != {}
    ensures m in s && forall x :: x in s ==> AtMost(x, m)
  {
    GreatestExists(s);
    var m :| m in s && forall x :: x in s ==> AtMost(x, m);
    m
  }

  // ---- What a set of intervals means ----

  predicate Holds(i: Interval, v: nat) {
    i.min <= v < i.max
  }

  predicate In(s: set<Interval>, v: nat) {
    exists i :: i in s && Holds(i, v)
  }

  predicate Apart(a: Interval, b: Interval) {
    a.max < b.min || b.max < a.min
  }

  // Between any two intervals there is a value of neither.
  predicate Separated(s: set<Interval>) {
    (forall i :: i in s ==> i.min <= i.max) && (forall i, j :: i in s && j in s && i != j ==> Apart(i, j))
  }

  class IntervalSet {
    var ints: set<Interval>

    constructor (ints: set<Interval>)
      ensures this.ints == ints
    {
      this.ints := ints;
    }

    // upper_bound and the interval in front of it.
    method Contains(val: nat) returns (r: bool)
      requires Separated(ints)
      ensures r <==> In(ints, val)
    {
      var above := set i | i in ints && Before(Interval(val, val), i);
      var below := ints - above;
      if above != {} && Least(above).min == val {
        assert Holds(Least(above), val);
        return true;
      }
      r := below != {} && Greatest(below).min <= val < Greatest(below).max;
      if r {
        assert Holds(Greatest(below), val);
      }
      forall i | i in ints && Holds(i, val) ensures r {
        Missed(ints, above, below, val, i);
      }
    }

    method Normalize(min: nat, max: nat)
      modifies this
      ensures Separated(ints)
      ensures forall v: nat :: In(ints, v) <==> In(old(ints), v) && min <= v < max
    {
      var rest := ints;
      var out: set<Interval> := {};
      var pmax: nat := min;
      ghost var done: set<Interval> := {};
      while rest != {}
        invariant ints == old(ints) && done + rest == ints && done !! rest
        invariant Gathered(out, done, rest, min, max, pmax)
      {
        var it := Least(rest);
        ghost var out0, pmax0 := out, pmax;
        var rmin: nat := if pmax > it.min then pmax else it.min;
        var rmax: nat := if it.max < max then it.max else max;
        if rmin <= rmax {
          if rmin == pmax && out != {} {
            // It touches the last one: both become one interval.
            var last := Greatest(out);
            out := out - {last};
            out := out + {Interval(last.min, rmax)};
          } else {
            out := out + {Interval(rmin, rmax)};
          }
          pmax := rmax;
        }
        Gathers(out0, done, rest, min, max, pmax0, it, out, pmax);
        rest := rest - {it};
        done := done + {it};
      }
      assert done == ints;
      ints := out;
    }

    // Adds what lies in [min, max) to res, whatever res holds. It stays separated where all of it lies below min.
    method CrossRange(res: set<Interval>, min: nat, max: nat) returns (r: set<Interval>)
      requires Separated(ints)
      ensures r == if min <= max then res + Clipped(ints, min, max) else res
      ensures forall x :: x in r ==> x in res || (min <= x.min && x.max <= max)
      ensures Separated(res) && (forall x :: x in res ==> x.max < min) ==> Separated(r)
      ensures forall v: nat :: In(r, v) <==> In(res, v) || (In(ints, v) && min <= v < max)
    {
      r := res;
      if min <= max {
        var before := set i | i in ints && Before(i, Interval(min, 0));
        var copied := set i | i in ints && !Before(i, Interval(min, 0)) && !Before(Interval(max, 0), i);
        ghost var added := FrontPiece(before, min, max) + BackPieces(copied, max);
        Crossed(ints, min, max, before, copied);
        if before != {} && min < Greatest(before).max {
          r := r + {Interval(min, if Greatest(before).max < max then Greatest(before).max else max)};
        }
        if copied != {} && max < Greatest(copied).max {
          var last := Greatest(copied);
          r := r + {Interval(last.min, max)};
          copied := copied - {last};
        }
        r := r + copied;
        assert r == res + added;
        CrossMeans(ints, res, min, max);
      }
    }

    method Cross(right: IntervalSet)
      requires Separated(ints) && Separated(right.ints)
      modifies this
      ensures Separated(ints)
      ensures forall v: nat :: In(ints, v) <==> In(old(ints), v) && In(old(right.ints), v)
    {
      var res: set<Interval> := {};
      var rest := right.ints;
      ghost var done: set<Interval> := {};
      while rest != {}
        invariant ints == old(ints) && right.ints == old(right.ints)
        invariant done + rest == right.ints && done !! rest && Separated(res)
        invariant forall x, y :: x in res && y in rest ==> x.max < y.min
        invariant forall d, y :: d in done && y in rest ==> Before(d, y)
        invariant forall v: nat :: In(res, v) <==> In(ints, v) && In(done, v)
      {
        var rit := Least(rest);
        ghost var res0 := res;
        res := CrossRange(res, rit.min, rit.max);
        rest := rest - {rit};
        forall x, y | x in res && y in rest ensures x.max < y.min {
          assert y != rit && Apart(rit, y);
        }
        forall v: nat ensures In(done + {rit}, v) <==> In(done, v) || Holds(rit, v) {
          if i :| i in done + {rit} && Holds(i, v) {
          }
          if i :| i in done && Holds(i, v) {
            assert i in done + {rit};
          }
          assert rit in done + {rit};
        }
        done := done + {rit};
      }
      assert done == right.ints;
      ints := res;
    }
  }

  // An interval that holds val is the one that was looked at.
  lemma Missed(ints: set<Interval>, above: set<Interval>, below: set<Interval>, val: nat, i: Interval)
    requires Separated(ints) && i in ints && Holds(i, val)
    requires above == (set j | j in ints && Before(Interval(val, val), j)) && below == ints - above
    requires above == {} || Least(above).min != val
    ensures i in below && Greatest(below) == i
  {
    assert i !in above;
    var g := Greatest(below);
    assert AtMost(i, g);
    assert g == i || Apart(i, g);
  }

  // ---- normalize ----

  // What normalize has made of the intervals done, with rest to come; pmax is where it has got to.
  ghost predicate Gathered(out: set<Interval>, done: set<Interval>, rest: set<Interval>, min: nat, max: nat,
                           pmax: nat) {
    && Separated(out)
    && (forall v: nat :: In(out, v) <==> In(done, v) && min <= v < max)
    && (out == {} ==> pmax == min)
    && (out != {} ==> Greatest(out).max == pmax)
    && (forall i :: i in out ==> i.max <= pmax && min <= i.min)
    && (forall i, y :: i in out && y in rest ==> i.min <= min || i.min <= y.min)
  }

  lemma JoinedIn(s: set<Interval>, i: Interval)
    ensures forall v: nat :: In(s + {i}, v) <==> In(s, v) || Holds(i, v)
  {
    forall v: nat ensures In(s + {i}, v) <==> In(s, v) || Holds(i, v) {
      assert i in s + {i};
      if j :| j in s && Holds(j, v) {
        assert j in s + {i};
      }
    }
  }

  // What lies below pmax is there already.
  lemma Covered(out: set<Interval>, done: set<Interval>, rest: set<Interval>, min: nat, max: nat, pmax: nat,
                it: Interval, v: nat)
    requires Gathered(out, done, rest, min, max, pmax) && it in rest && it.min <= v && min <= v < pmax
    ensures In(out, v)
  {
    assert Holds(Greatest(out), v);
  }

  lemma IsGreatest(s: set<Interval>, g: Interval)
    requires g in s && forall x :: x in s && x != g ==> x.min <= x.max < g.min
    ensures Greatest(s) == g
  {
    assert AtMost(g, Greatest(s));
  }

  lemma BelowGreatest(out: set<Interval>, x: Interval)
    requires Separated(out) && x in out && x != Greatest(out)
    ensures x.max < Greatest(out).min
  {
    assert AtMost(x, Greatest(out)) && Apart(x, Greatest(out));
  }

  lemma Nothing(out: set<Interval>, done: set<Interval>, rest: set<Interval>, min: nat, max: nat, pmax: nat,
                it: Interval)
    requires Gathered(out, done, rest, min, max, pmax) && it in rest
    requires (if pmax > it.min then pmax else it.min) > (if it.max < max then it.max else max)
    ensures Gathered(out, done + {it}, rest - {it}, min, max, pmax)
  {
    JoinedIn(done, it);
    forall v: nat | Holds(it, v) && min <= v < max ensures In(out, v) {
      Covered(out, done, rest, min, max, pmax, it, v);
    }
  }

  lemma Grown(out: set<Interval>, done: set<Interval>, rest: set<Interval>, min: nat, max: nat, pmax: nat,
              it: Interval, rmax: nat)
    requires Gathered(out, done, rest, min, max, pmax) && it in rest && out != {} && it.min <= pmax
    requires rmax == (if it.max < max then it.max else max) && pmax <= rmax
    ensures Gathered(out - {Greatest(out)} + {Interval(Greatest(out).min, rmax)}, done + {it}, rest - {it}, min, max, rmax)
  {
    var last := Greatest(out);
    var others, grown := out - {last}, Interval(last.min, rmax);
    forall x | x in others ensures x.max < last.min {
      BelowGreatest(out, x);
    }
    assert others + {last} == out;
    JoinedIn(done, it);
    JoinedIn(others, last);
    JoinedIn(others, grown);
    forall v: nat | Holds(it, v) && min <= v < pmax ensures In(out, v) {
      Covered(out, done, rest, min, max, pmax, it, v);
    }
    IsGreatest(others + {grown}, grown);
  }

  lemma Added(out: set<Interval>, done: set<Interval>, rest: set<Interval>, min: nat, max: nat, pmax: nat, it: Interval,
              rmin: nat, rmax: nat)
    requires Gathered(out, done, rest, min, max, pmax) && rest != {} && it == Least(rest)
    requires rmin == (if pmax > it.min then pmax else it.min) && (out == {} || rmin != pmax)
    requires rmax == (if it.max < max then it.max else max) && rmin <= rmax
    ensures Gathered(out + {Interval(rmin, rmax)}, done + {it}, rest - {it}, min, max, rmax)
  {
    var more := out + {Interval(rmin, rmax)};
    JoinedIn(done, it);
    JoinedIn(out, Interval(rmin, rmax));
    IsGreatest(more, Interval(rmin, rmax));
    forall y | y in rest - {it} ensures it.min <= y.min {
      assert AtMost(it, y);
    }
  }

  lemma Gathers(out: set<Interval>, done: set<Interval>, rest: set<Interval>, min: nat, max: nat, pmax: nat,
                it: Interval, out': set<Interval>, pmax': nat)
    requires Gathered(out, done, rest, min, max, pmax) && rest != {} && it == Least(rest)
    requires var rmin, rmax := if pmax > it.min then pmax else it.min, if it.max < max then it.max else max;
      if rmin > rmax then out' == out && pmax' == pmax
      else if rmin == pmax && out != {} then
        out' == (out - {Greatest(out)}) + {Interval(Greatest(out).min, rmax)} && pmax' == rmax
      else out' == out + {Interval(rmin, rmax)} && pmax' == rmax
    ensures Gathered(out', done + {it}, rest - {it}, min, max, pmax')
  {
    var rmin, rmax := if pmax > it.min then pmax else it.min, if it.max < max then it.max else max;
    if rmin > rmax {
      Nothing(out, done, rest, min, max, pmax, it);
    } else if rmin == pmax && out != {} {
      Grown(out, done, rest, min, max, pmax, it, rmax);
    } else {
      Added(out, done, rest, min, max, pmax, it, rmin, rmax);
    }
  }

  // ---- cross ----

  predicate Touches(i: Interval, min: nat, max: nat) {
    if i.min < min then min < i.max else !Before(Interval(max, 0), i)
  }

  function Clip(i: Interval, min: nat, max: nat): Interval {
    Interval(if i.min < min then min else i.min, if i.max < max then i.max else max)
  }

  function Clipped(s: set<Interval>, min: nat, max: nat): set<Interval> {
    set i | i in s && Touches(i, min, max) :: Clip(i, min, max)
  }

  function FrontPiece(before: set<Interval>, min: nat, max: nat): set<Interval> {
    if before != {} && min < Greatest(before).max then
      {Interval(min, if Greatest(before).max < max then Greatest(before).max else max)}
    else {}
  }

  function BackPieces(copied: set<Interval>, max: nat): set<Interval> {
    if copied != {} && max < Greatest(copied).max then
      {Interval(Greatest(copied).min, max)} + (copied - {Greatest(copied)})
    else copied
  }

  lemma OnlyTheLast(s: set<Interval>, part: set<Interval>, i: Interval)
    requires Separated(s) && part <= s && i in part && i != Greatest(part)
    ensures i.max < Greatest(part).min
  {
    BelowGreatest(part, i);
  }

  // Only the interval in front of min can reach across it.
  lemma FrontClipped(s: set<Interval>, min: nat, max: nat, before: set<Interval>)
    requires Separated(s) && min <= max && before == (set i | i in s && Before(i, Interval(min, 0)))
    ensures FrontPiece(before, min, max) == Clipped(before, min, max)
  {
    forall i | i in before && Touches(i, min, max) ensures i == Greatest(before) {
      if i != Greatest(before) {
        OnlyTheLast(s, before, i);
      }
    }
    if before != {} && min < Greatest(before).max {
      assert Touches(Greatest(before), min, max);
      assert Clip(Greatest(before), min, max) in Clipped(before, min, max);
    }
  }

  // And only the last one copied can reach across max.
  lemma BackClipped(s: set<Interval>, min: nat, max: nat, copied: set<Interval>)
    requires Separated(s) && min <= max
    requires copied == (set i | i in s && !Before(i, Interval(min, 0)) && !Before(Interval(max, 0), i))
    ensures BackPieces(copied, max) == Clipped(copied, min, max)
  {
    forall i | i in copied && (i != Greatest(copied) || i.max <= max) ensures Clip(i, min, max) == i {
      if i != Greatest(copied) {
        OnlyTheLast(s, copied, i);
      }
    }
    forall i | i in copied ensures Touches(i, min, max) && Clip(i, min, max) in BackPieces(copied, max) {
    }
    forall x | x in BackPieces(copied, max) ensures x in Clipped(copied, min, max) {
      if x in copied && Clip(x, min, max) == x {
        assert Touches(x, min, max);
      } else {
        assert Touches(Greatest(copied), min, max) && x == Clip(Greatest(copied), min, max);
      }
    }
  }

  // So the pieces are all of the clipped intervals.
  lemma Crossed(s: set<Interval>, min: nat, max: nat, before: set<Interval>, copied: set<Interval>)
    requires Separated(s) && min <= max
    requires before == (set i | i in s && Before(i, Interval(min, 0)))
    requires copied == (set i | i in s && !Before(i, Interval(min, 0)) && !Before(Interval(max, 0), i))
    ensures FrontPiece(before, min, max) + BackPieces(copied, max) == Clipped(s, min, max)
  {
    FrontClipped(s, min, max, before);
    BackClipped(s, min, max, copied);
    assert forall i :: i in s && Touches(i, min, max) ==> i in before || i in copied;
  }

  lemma ClippedMeans(s: set<Interval>, min: nat, max: nat)
    requires Separated(s) && min <= max
    ensures Separated(Clipped(s, min, max)) && forall x :: x in Clipped(s, min, max) ==> min <= x.min && x.max <= max
    ensures forall v: nat :: In(Clipped(s, min, max), v) <==> In(s, v) && min <= v < max
  {
    forall x, y | x in Clipped(s, min, max) && y in Clipped(s, min, max) && x != y ensures Apart(x, y) {
      var i :| i in s && Touches(i, min, max) && x == Clip(i, min, max);
      var j :| j in s && Touches(j, min, max) && y == Clip(j, min, max);
      assert Apart(i, j);
    }
    forall v: nat ensures In(Clipped(s, min, max), v) <==> In(s, v) && min <= v < max {
      if x :| x in Clipped(s, min, max) && Holds(x, v) {
        var i :| i in s && Touches(i, min, max) && x == Clip(i, min, max);
        assert Holds(i, v);
      }
      if i :| i in s && Holds(i, v) && min <= v < max {
        assert Touches(i, min, max) && Holds(Clip(i, min, max), v);
      }
    }
  }

  lemma CrossMeans(s: set<Interval>, res: set<Interval>, min: nat, max: nat)
    requires Separated(s) && min <= max
    ensures var r := res + Clipped(s, min, max);
      && (forall x :: x in r ==> x in res || (min <= x.min && x.max <= max))
      && (Separated(res) && (forall x :: x in res ==> x.max < min) ==> Separated(r))
      && forall v: nat :: In(r, v) <==> In(res, v) || (In(s, v) && min <= v < max)
  {
    ClippedMeans(s, min, max);
    UnionMeans(res, Clipped(s, min, max));
  }

  lemma UnionMeans(a: set<Interval>, b: set<Interval>)
    ensures forall v: nat :: In(a + b, v) <==> In(a, v) || In(b, v)
  {
    forall v: nat ensures In(a + b, v) <==> In(a, v) || In(b, v) {
      if i :| i in a && Holds(i, v) {
        assert i in a + b;
      }
      if i :| i in b && Holds(i, v) {
        assert i in a + b;
      }
    }
  }
}
