// What a NoCopyGranularContainer holds, as a value: the active entries with their timestamps and the tombstones.
module GranularSnapshots {

  type Time = int // Generics::Time; 0 is Time()

  datatype Entry<V> = Entry(value: V, stamp: Time)

  datatype Snapshot<K, V> = Snapshot(active: map<K, Entry<V>>, inactive: map<K, Time>)

  // ---- The operations of one rebuild ----

  function EntryAfter<K(==), V(==)>(s: Snapshot<K, V>, past: Snapshot<K, V>, id: K, v: V, sysdate: Time): Entry<V> {
    if id in past.active && past.active[id].value == v then past.active[id]
    else if id in s.active && s.active[id].value == v then s.active[id]
    else Entry(v, sysdate)
  }

  function Activated<K(==), V(==)>(s: Snapshot<K, V>, past: Snapshot<K, V>, id: K, v: V, sysdate: Time)
    : Snapshot<K, V>
  {
    Snapshot(s.active[id := EntryAfter(s, past, id, v, sysdate)], s.inactive - {id})
  }

  // What activate returns: the entry is new to this container and to the old one.
  predicate IsNews<K(==), V(==)>(s: Snapshot<K, V>, past: Snapshot<K, V>, id: K, v: V) {
    !(id in past.active && past.active[id].value == v) && !(id in s.active && s.active[id].value == v)
  }

  function Deactivated<K(==), V>(s: Snapshot<K, V>, past: Snapshot<K, V>, id: K, sysdate: Time): Snapshot<K, V> {
    Snapshot(s.active - {id}, s.inactive[id := if id in past.inactive then past.inactive[id] else sysdate])
  }

  predicate Has<K(==), V>(s: Snapshot<K, V>, id: K) {
    id in s.active || id in s.inactive
  }

  // Active in the old container and not mentioned in this one: dead as of sysdate.
  function ActiveDropped<K(==), V>(s: Snapshot<K, V>, past: Snapshot<K, V>, sysdate: Time): Snapshot<K, V> {
    s.(inactive := s.inactive + map k | k in past.active && !Has(s, k) :: sysdate)
  }

  // Dead in the old container and not mentioned in this one: as dead as before.
  function InactiveKept<K(==), V>(s: Snapshot<K, V>, past: Snapshot<K, V>): Snapshot<K, V> {
    s.(inactive := s.inactive + map k | k in past.inactive && !Has(s, k) :: past.inactive[k])
  }

  function NonactiveDeactivated<K(==), V>(s: Snapshot<K, V>, past: Snapshot<K, V>, sysdate: Time): Snapshot<K, V> {
    InactiveKept(ActiveDropped(s, past, sysdate), past)
  }

  function Cleaned<K(==), V>(s: Snapshot<K, V>, cut: Time): Snapshot<K, V> {
    s.(inactive := map k | k in s.inactive && s.inactive[k] >= cut :: s.inactive[k])
  }

  // max_stamp: the largest timestamp, or Time() when there is none above it.
  ghost predicate IsMaxStamp<K, V>(s: Snapshot<K, V>, t: Time) {
    && 0 <= t
    && (forall k :: k in s.active ==> s.active[k].stamp <= t)
    && (forall k :: k in s.inactive ==> s.inactive[k] <= t)
    && (t == 0
        || (exists k :: k in s.active && s.active[k].stamp == t)
        || (exists k :: k in s.inactive && s.inactive[k] == t))
  }

  // ---- A rebuild ----

  datatype Op<K, V> = Activate(id: K, value: V) | Deactivate(id: K)

  function Applied<K(==), V(==)>(ops: seq<Op<K, V>>, past: Snapshot<K, V>, sysdate: Time): Snapshot<K, V> {
    if ops == [] then Snapshot(map[], map[])
    else
      var s := Applied(ops[..|ops| - 1], past, sysdate);
      match ops[|ops| - 1]
      case Activate(id, v) => Activated(s, past, id, v, sysdate)
      case Deactivate(id) => Deactivated(s, past, id, sysdate)
  }

  function Rebuilt<K(==), V(==)>(ops: seq<Op<K, V>>, past: Snapshot<K, V>, sysdate: Time): Snapshot<K, V> {
    NonactiveDeactivated(Applied(ops, past, sysdate), past, sysdate)
  }

  // The last word of ops on id.
  datatype Verdict<V> = Active(value: V) | Inactive | Unmentioned

  function LastWord<K(==), V>(ops: seq<Op<K, V>>, id: K): Verdict<V> {
    if ops == [] then Unmentioned
    else if ops[|ops| - 1].id == id then
      (match ops[|ops| - 1] case Activate(_, v) => Active(v) case Deactivate(_) => Inactive)
    else LastWord(ops[..|ops| - 1], id)
  }

  ghost predicate Disjoint<K, V>(s: Snapshot<K, V>) {
    s.active.Keys !! s.inactive.Keys
  }

  lemma {:induction false} AppliedExactly<K, V>(ops: seq<Op<K, V>>, past: Snapshot<K, V>, sysdate: Time, id: K)
    ensures var s := Applied(ops, past, sysdate);
      match LastWord(ops, id)
      case Active(v) =>
        && id in s.active && id !in s.inactive && s.active[id].value == v
        && s.active[id].stamp
           == (if id in past.active && past.active[id].value == v then past.active[id].stamp else sysdate)
      case Inactive =>
        && id !in s.active && id in s.inactive
        && s.inactive[id] == (if id in past.inactive then past.inactive[id] else sysdate)
      case Unmentioned => !Has(s, id)
  {
    if ops != [] {
      AppliedExactly(ops[..|ops| - 1], past, sysdate, id);
    }
  }

  // A rebuild is decided key by key by the last word on the key: it never has a key twice, it covers every key of the
  // old container, and a timestamp moves to sysdate exactly when status or value changed.
  lemma RebuiltExactly<K, V>(ops: seq<Op<K, V>>, past: Snapshot<K, V>, sysdate: Time, id: K)
    requires Disjoint(past)
    ensures var s := Rebuilt(ops, past, sysdate);
      && !(id in s.active && id in s.inactive)
      && (id in s.active <==> LastWord(ops, id).Active?)
      && (id in s.active ==>
            && s.active[id].value == LastWord(ops, id).value
            && s.active[id].stamp
               == (if id in past.active && past.active[id].value == s.active[id].value then past.active[id].stamp else sysdate))
      && (id in s.inactive <==> LastWord(ops, id).Inactive? || (LastWord(ops, id).Unmentioned? && Has(past, id)))
      && (id in s.inactive ==> s.inactive[id] == (if id in past.inactive then past.inactive[id] else sysdate))
  {
    AppliedExactly(ops, past, sysdate, id);
  }

  // ---- Catching up ----

  // One container of a chain made from the one before it.
  datatype Change<K, V> = Rebuild(ops: seq<Op<K, V>>, sysdate: Time) | Clean(cut: Time)

  function After<K(==), V(==)>(s: Snapshot<K, V>, c: Change<K, V>): Snapshot<K, V> {
    match c
    case Rebuild(ops, sysdate) => Rebuilt(ops, s, sysdate)
    case Clean(cut) => Cleaned(s, cut)
  }

  ghost predicate Chain<K, V>(cs: seq<Snapshot<K, V>>, changes: seq<Change<K, V>>) {
    |cs| == |changes| + 1
    && forall i :: 0 <= i < |changes| ==> cs[i + 1] == After(cs[i], changes[i])
  }

  // Every rebuild is dated later than all before it.
  ghost predicate Dated<K, V>(changes: seq<Change<K, V>>) {
    && (forall i :: 0 <= i < |changes| && changes[i].Rebuild? ==> 0 < changes[i].sysdate)
    && (forall i, j :: 0 <= i < j < |changes| && changes[i].Rebuild? && changes[j].Rebuild? ==>
          changes[i].sysdate < changes[j].sysdate)
  }

  // What is sent to a replica that has everything up to since.
  function Newer<K(==), V>(s: Snapshot<K, V>, since: Time): Snapshot<K, V> {
    Snapshot(map k | k in s.active && s.active[k].stamp > since :: s.active[k],
             map k | k in s.inactive && s.inactive[k] > since :: s.inactive[k])
  }

  function Overlay<K(==), V>(replica: Snapshot<K, V>, update: Snapshot<K, V>): Snapshot<K, V> {
    Snapshot((replica.active - update.inactive.Keys) + update.active,
             (replica.inactive - update.active.Keys) + update.inactive)
  }

  ghost predicate Bounded<K, V>(s: Snapshot<K, V>, t: Time) {
    && (forall k :: k in s.active ==> s.active[k].stamp <= t)
    && (forall k :: k in s.inactive ==> s.inactive[k] <= t)
  }

  // What c, a later container than r, can hold: entries r has too, and entries dated next or later.
  ghost predicate Grown<K, V>(r: Snapshot<K, V>, c: Snapshot<K, V>, next: Time) {
    && Disjoint(c)
    && (forall k :: k in c.active && c.active[k].stamp < next ==> k in r.active && r.active[k] == c.active[k])
    && (forall k :: k in c.inactive && c.inactive[k] < next ==> k in r.inactive && r.inactive[k] == c.inactive[k])
  }

  ghost predicate Covers<K, V>(c: Snapshot<K, V>, r: Snapshot<K, V>) {
    forall k :: k in r.active ==> Has(c, k)
  }

  lemma GrowsOn<K, V>(r: Snapshot<K, V>, c: Snapshot<K, V>, change: Change<K, V>, next: Time)
    requires Grown(r, c, next) && (change.Rebuild? ==> next <= change.sysdate)
    ensures Grown(r, After(c, change), next)
  {
    var d := After(c, change);
    if change.Rebuild? {
      forall k | k in d.active
        ensures k !in d.inactive
        ensures d.active[k].stamp < next ==> k in r.active && r.active[k] == d.active[k]
      {
        RebuiltExactly(change.ops, c, change.sysdate, k);
      }
      forall k | k in d.inactive
        ensures d.inactive[k] < next ==> k in r.inactive && r.inactive[k] == d.inactive[k]
      {
        RebuiltExactly(change.ops, c, change.sysdate, k);
      }
    }
  }

  lemma CoversOn<K, V>(r: Snapshot<K, V>, c: Snapshot<K, V>, change: Change<K, V>, next: Time)
    requires Disjoint(r) && Grown(r, c, next) && Covers(c, r) && (change.Clean? ==> change.cut <= next)
    ensures Covers(After(c, change), r)
  {
    forall k | k in r.active ensures Has(After(c, change), k) {
      if change.Rebuild? {
        RebuiltExactly(change.ops, c, change.sysdate, k);
      }
    }
  }

  lemma {:induction false} GrownLater<K, V>(cs: seq<Snapshot<K, V>>, changes: seq<Change<K, V>>, i: nat, n: nat,
                                            next: Time)
    requires Chain(cs, changes) && i <= n <= |changes| && Disjoint(cs[i])
    requires forall j :: i <= j < n && changes[j].Rebuild? ==> next <= changes[j].sysdate
    ensures Grown(cs[i], cs[n], next)
  {
    if i < n {
      GrownLater(cs, changes, i, n - 1, next);
      GrowsOn(cs[i], cs[n - 1], changes[n - 1], next);
    }
  }

  lemma {:induction false} CoveredLater<K, V>(cs: seq<Snapshot<K, V>>, changes: seq<Change<K, V>>, i: nat, n: nat,
                                              next: Time)
    requires Chain(cs, changes) && i <= n <= |changes| && Disjoint(cs[i])
    requires forall j :: i <= j < n && changes[j].Rebuild? ==> next <= changes[j].sysdate
    requires forall j :: i <= j < n && changes[j].Clean? ==> changes[j].cut <= next
    ensures Covers(cs[n], cs[i])
  {
    if i < n {
      CoveredLater(cs, changes, i, n - 1, next);
      GrownLater(cs, changes, i, n - 1, next);
      CoversOn(cs[i], cs[n - 1], changes[n - 1], next);
    }
  }

  // The entries newer than r, laid over r, give the active map of c exactly when c still knows every active key of r.
  lemma OverlayExact<K, V>(r: Snapshot<K, V>, c: Snapshot<K, V>, since: Time, next: Time)
    requires Disjoint(r) && Bounded(r, since) && since < next && Grown(r, c, next)
    ensures Overlay(r, Newer(c, since)).active == c.active <==> Covers(c, r)
  {
    var o := Overlay(r, Newer(c, since));
    if Covers(c, r) {
      forall k ensures k in o.active <==> k in c.active {
      }
      forall k | k in c.active ensures o.active[k] == c.active[k] {
      }
      assert o.active == c.active;
    } else {
      var k :| k in r.active && !Has(c, k);
      assert k in o.active && k !in c.active;
    }
  }

  // In a chain of containers with rising dates, a replica at cs[i] that gets what cs[n] holds newer than its own
  // max_stamp has the active map of cs[n], exactly when no tombstone it needed was cleaned away.
  lemma CatchUpExact<K, V>(cs: seq<Snapshot<K, V>>, changes: seq<Change<K, V>>, i: nat, n: nat, since: Time)
    requires Chain(cs, changes) && Dated(changes) && cs[0] == Snapshot(map[], map[])
    requires i <= n <= |changes| && IsMaxStamp(cs[i], since)
    ensures Overlay(cs[i], Newer(cs[n], since)).active == cs[n].active <==> Covers(cs[n], cs[i])
  {
    AllDisjoint(cs, changes, i);
    StampsPast(cs, changes, i, n, since);
    GrownLater(cs, changes, i, n, since + 1);
    OverlayExact(cs[i], cs[n], since, since + 1);
  }

  // What is sent is no more than it has to be: just the entries and tombstones that the replica does not have as they are.
  lemma SentExactly<K, V>(cs: seq<Snapshot<K, V>>, changes: seq<Change<K, V>>, i: nat, n: nat, since: Time, k: K)
    requires Chain(cs, changes) && Dated(changes) && cs[0] == Snapshot(map[], map[])
    requires i <= n <= |changes| && IsMaxStamp(cs[i], since)
    ensures var r, c, sent := cs[i], cs[n], Newer(cs[n], since);
      && (k in sent.active <==> k in c.active && !(k in r.active && r.active[k] == c.active[k]))
      && (k in sent.inactive <==> k in c.inactive && !(k in r.inactive && r.inactive[k] == c.inactive[k]))
      && (k in sent.active ==> sent.active[k] == c.active[k])
      && (k in sent.inactive ==> sent.inactive[k] == c.inactive[k])
  {
    AllDisjoint(cs, changes, i);
    StampsPast(cs, changes, i, n, since);
    GrownLater(cs, changes, i, n, since + 1);
  }

  // No cleaning after i reaches past what the replica has: then catching up works.
  lemma CatchUp<K, V>(cs: seq<Snapshot<K, V>>, changes: seq<Change<K, V>>, i: nat, n: nat, since: Time)
    requires Chain(cs, changes) && Dated(changes) && cs[0] == Snapshot(map[], map[])
    requires i <= n <= |changes| && IsMaxStamp(cs[i], since)
    requires forall j :: i <= j < n && changes[j].Clean? ==> changes[j].cut <= since + 1
    ensures Overlay(cs[i], Newer(cs[n], since)).active == cs[n].active
  {
    AllDisjoint(cs, changes, i);
    StampsPast(cs, changes, i, n, since);
    CoveredLater(cs, changes, i, n, since + 1);
    CatchUpExact(cs, changes, i, n, since);
  }

  // A replica that was at cs[stops[0]] and then was brought up to each later stop in turn, every time with what
  // was newer than the max_stamp of the stop before.
  function Follower<K(==), V(==)>(cs: seq<Snapshot<K, V>>, stops: seq<nat>, stamps: seq<Time>): Snapshot<K, V>
    requires 0 < |stops| == |stamps| && forall j :: 0 <= j < |stops| ==> stops[j] < |cs|
  {
    var last := |stops| - 1;
    if last == 0 then cs[stops[0]]
    else Overlay(Follower(cs, stops[..last], stamps[..last]), Newer(cs[stops[last]], stamps[last - 1]))
  }

  // It never falls behind, however often it is brought up.
  lemma {:induction false} FollowerKeepsUp<K, V>(cs: seq<Snapshot<K, V>>, changes: seq<Change<K, V>>, stops: seq<nat>,
                                                 stamps: seq<Time>)
    requires Chain(cs, changes) && Dated(changes) && cs[0] == Snapshot(map[], map[])
    requires 0 < |stops| == |stamps| && (forall j :: 0 <= j < |stops| ==> stops[j] < |cs|)
    requires forall j :: 0 <= j < |stops| ==> IsMaxStamp(cs[stops[j]], stamps[j])
    requires forall j, l :: 0 <= j < l < |stops| ==> stops[j] <= stops[l]
    requires forall j, i :: 0 <= j < |stops| - 1 && stops[j] <= i < stops[j + 1] && changes[i].Clean? ==>
      changes[i].cut <= stamps[j] + 1
    ensures Follower(cs, stops, stamps).active == cs[stops[|stops| - 1]].active
  {
    var last := |stops| - 1;
    if last > 0 {
      FollowerKeepsUp(cs, changes, stops[..last], stamps[..last]);
      CatchUp(cs, changes, stops[last - 1], stops[last], stamps[last - 1]);
    }
  }

  lemma {:induction false} AllDisjoint<K, V>(cs: seq<Snapshot<K, V>>, changes: seq<Change<K, V>>, i: nat)
    requires Chain(cs, changes) && cs[0] == Snapshot(map[], map[]) && i <= |changes|
    ensures Disjoint(cs[i])
  {
    if i > 0 {
      AllDisjoint(cs, changes, i - 1);
      if changes[i - 1].Rebuild? {
        forall k | k in cs[i].active ensures k !in cs[i].inactive {
          RebuiltExactly(changes[i - 1].ops, cs[i - 1], changes[i - 1].sysdate, k);
        }
      }
    }
  }

  // Every timestamp is the date of some rebuild before.
  lemma {:induction false} StampIsDate<K, V>(cs: seq<Snapshot<K, V>>, changes: seq<Change<K, V>>, i: nat, k: K, t: Time)
    requires Chain(cs, changes) && cs[0] == Snapshot(map[], map[]) && i <= |changes|
    requires (k in cs[i].active && cs[i].active[k].stamp == t) || (k in cs[i].inactive && cs[i].inactive[k] == t)
    ensures exists j :: 0 <= j < i && changes[j].Rebuild? && changes[j].sysdate == t
  {
    AllDisjoint(cs, changes, i - 1);
    if changes[i - 1].Rebuild? {
      RebuiltExactly(changes[i - 1].ops, cs[i - 1], changes[i - 1].sysdate, k);
      if changes[i - 1].sysdate != t {
        StampIsDate(cs, changes, i - 1, k, t);
      }
    } else {
      StampIsDate(cs, changes, i - 1, k, t);
    }
  }

  // The max_stamp of cs[i] is below every later date.
  lemma StampsPast<K, V>(cs: seq<Snapshot<K, V>>, changes: seq<Change<K, V>>, i: nat, n: nat, since: Time)
    requires Chain(cs, changes) && Dated(changes) && cs[0] == Snapshot(map[], map[])
    requires i <= n <= |changes| && IsMaxStamp(cs[i], since)
    ensures Bounded(cs[i], since)
    ensures forall j :: i <= j < n && changes[j].Rebuild? ==> since + 1 <= changes[j].sysdate
  {
    if since != 0 {
      if k :| k in cs[i].active && cs[i].active[k].stamp == since {
        StampIsDate(cs, changes, i, k, since);
      } else {
        var k :| k in cs[i].inactive && cs[i].inactive[k] == since;
        StampIsDate(cs, changes, i, k, since);
      }
    }
  }

  // Cleaning too far does lose a deletion: the replica keeps a key that is gone.
  lemma CleanedTooFar()
    ensures var r := Rebuilt([Activate(7, "x")], Snapshot(map[], map[]), 1);
      var gone := Cleaned(Rebuilt([], r, 2), 3);
      IsMaxStamp(r, 1) && gone.active == map[] && 7 in Overlay(r, Newer(gone, 1)).active
  {
    var r := Rebuilt([Activate(7, "x")], Snapshot(map[], map[]), 1);
    AppliedExactly([Activate(7, "x")], Snapshot(map[], map[]), 1, 7);
    forall k ensures k in r.active <==> k == 7 {
      RebuiltExactly([Activate(7, "x")], Snapshot(map[], map[]), 1, k);
    }
    var none: seq<Op<int, string>> := [];
    forall k ensures k !in Rebuilt(none, r, 2).active {
      RebuiltExactly(none, r, 2, k);
    }
    assert r.inactive == map[];
    assert r.active[7].stamp == 1;
  }
}
