// File names under the order of std::string, and the ends of a std::set of them.
module Names {

  type Name = string

  // The strings agree before k, and a is the smaller one at k.
  predicate LessAt(a: Name, b: Name, k: nat) {
    k <= |a| && k < |b| && a[..k] == b[..k] && (k == |a| || a[k] < b[k])
  }

  predicate Less(a: Name, b: Name) {
    exists k: nat :: k <= |a| && LessAt(a, b, k)
  }

  predicate AtMost(a: Name, b: Name) {
    !Less(b, a)
  }

  lemma {:induction false} Compare(a: Name, b: Name, k: nat)
    requires k <= |a| && k <= |b| && a[..k] == b[..k]
    ensures a == b || Less(a, b) || Less(b, a)
    decreases |a| - k
  {
    if k == |a| {
      if k == |b| {
        assert a == a[..k] && b == b[..k];
      } else {
        assert LessAt(a, b, k);
      }
    } else if k == |b| || b[k] < a[k] {
      assert LessAt(b, a, k);
    } else if a[k] < b[k] {
      assert LessAt(a, b, k);
    } else {
      assert a[..k + 1] == a[..k] + [a[k]];
      assert b[..k + 1] == b[..k] + [b[k]];
      Compare(a, b, k + 1);
    }
  }

  lemma LessTransitive(a: Name, b: Name, c: Name)
    requires Less(a, b) && Less(b, c)
    ensures Less(a, c)
  {
    var i: nat :| i <= |a| && LessAt(a, b, i);
    var j: nat :| j <= |b| && LessAt(b, c, j);
    var k := if i < j then i else j;
    assert a[..k] == a[..i][..k] == b[..i][..k] == b[..k];
    assert b[..k] == b[..j][..k] == c[..j][..k] == c[..k];
    if i < j {
      assert b[i] == b[..j][i] == c[..j][i] == c[i];
    }
    if j < i {
      assert a[j] == a[..i][j] == b[..i][j] == b[j];
    }
    assert LessAt(a, c, k);
  }

  lemma LessIrreflexive(a: Name, b: Name)
    requires Less(a, b)
    ensures !Less(b, a)
  {
    if Less(b, a) {
      LessTransitive(a, b, a);
    }
  }

  // Less is a strict total order on all strings.
  lemma Order()
    ensures forall a: Name, b: Name :: a == b || Less(a, b) || Less(b, a)
    ensures forall a: Name, b: Name :: Less(a, b) ==> !Less(b, a)
    ensures forall a: Name, b: Name, c: Name :: Less(a, b) && Less(b, c) ==> Less(a, c)
    ensures forall a: Name, b: Name, c: Name :: AtMost(a, b) && AtMost(b, c) ==> AtMost(a, c)
  {
    forall a: Name, b: Name ensures a == b || Less(a, b) || Less(b, a) {
      Compare(a, b, 0);
    }
    forall a: Name, b: Name | Less(a, b) ensures !Less(b, a) {
      LessIrreflexive(a, b);
    }
    forall a: Name, b: Name, c: Name | Less(a, b) && Less(b, c) ensures Less(a, c) {
      LessTransitive(a, b, c);
    }
    forall a: Name, b: Name, c: Name | AtMost(a, b) && AtMost(b, c) ensures AtMost(a, c) {
      if Less(c, a) {
        Compare(a, b, 0);
        if Less(a, b) {
          LessTransitive(c, a, b);
        }
      }
    }
  }

  ghost predicate IsLeast(s: set<Name>, m: Name) {
    m in s && forall x :: x in s ==> AtMost(m, x)
  }

  ghost predicate IsGreatest(s: set<Name>, m: Name) {
    m in s && forall x :: x in s ==> AtMost(x, m)
  }

  lemma {:induction false} LeastExists(s: set<Name>)
    requires s != {}
    ensures exists m :: IsLeast(s, m)
    decreases |s|
  {
    Order();
    var x :| x in s;
    var rest := s - {x};
    if rest == {} {
      assert s == {x};
      assert IsLeast(s, x);
    } else {
      LeastExists(rest);
      var m :| IsLeast(rest, m);
      assert forall y :: y in s ==> y == x || y in rest;
      if Less(x, m) {
        assert IsLeast(s, x);
      } else {
        assert IsLeast(s, m);
      }
    }
  }

  lemma {:induction false} GreatestExists(s: set<Name>)
    requires s != {}
    ensures exists m :: IsGreatest(s, m)
    decreases |s|
  {
    Order();
    var x :| x in s;
    var rest := s - {x};
    if rest == {} {
      assert s == {x};
      assert IsGreatest(s, x);
    } else {
      GreatestExists(rest);
      var m :| IsGreatest(rest, m);
      assert forall y :: y in s ==> y == x || y in rest;
      if Less(m, x) {
        assert IsGreatest(s, x);
      } else {
        assert IsGreatest(s, m);
      }
    }
  }

  // *s.begin()
  function Least(s: set<Name>): (m: Name)
    requires s != {}
    ensures IsLeast(s, m)
  {
    LeastExists(s);
    Order();
    var m :| m in s && forall x :: x in s ==> AtMost(m, x);
    m
  }

  // *s.rbegin()
  function Greatest(s: set<Name>): (m: Name)
    requires s != {}
    ensures IsGreatest(s, m)
  {
    GreatestExists(s);
    Order();
    var m :| m in s && forall x :: x in s ==> AtMost(x, m);
    m
  }
}
