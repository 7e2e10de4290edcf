// NoCopyGranularContainer: values are shared by pointer, and a timestamp is set through the pointer.
module GranularContainer {
  import opened GranularSnapshots

  class Element<V> {
    const value: V
    var timestamp: Time

    constructor (value: V)
      ensures this.value == value && timestamp == 0
    {
      this.value := value;
      timestamp := 0;
    }
  }

  class NoCopyGranularContainer<K(==), V(==)> {
    var activeInstances: map<K, Element<V>>
    var inactiveInstances: map<K, Time>

    ghost function ActiveView(): map<K, Entry<V>>
      reads this`activeInstances, activeInstances.Values
    {
      map k | k in activeInstances :: Entry(activeInstances[k].value, activeInstances[k].timestamp)
    }

    ghost function View(): Snapshot<K, V>
      reads this, activeInstances.Values
    {
      Snapshot(ActiveView(), inactiveInstances)
    }

    constructor ()
      ensures View() == Snapshot(map[], map[])
    {
      activeInstances := map[];
      inactiveInstances := map[];
    }

    // What the old container holds, and nothing where none is given.
    static ghost function Past(oldContainer: NoCopyGranularContainer?<K, V>): Snapshot<K, V>
      reads oldContainer, if oldContainer == null then {} else oldContainer.activeInstances.Values
    {
      if oldContainer == null then Snapshot(map[], map[]) else oldContainer.View()
    }

    // No other key of this container shares the element.
    ghost predicate Alone(id: K, val: Element<V>)
      reads this`activeInstances
    {
      forall k :: k in activeInstances && k != id ==> activeInstances[k] != val
    }

    // The timestamp is set through the pointer, so that whoever shares val gets it too: any other key of this container
    // and the old container, where they hold the same element.
    method Activate(id: K, val: Element<V>, sysdate: Time, oldContainer: NoCopyGranularContainer?<K, V>)
      returns (result: bool)
      requires oldContainer != this
      modifies this, val
      ensures result <==> old(IsNews(View(), Past(oldContainer), id, val.value))
      ensures id in activeInstances && (result ==> activeInstances[id] == val)
      ensures activeInstances == old(activeInstances)[id := activeInstances[id]]
      ensures val.timestamp == if result then sysdate else old(val.timestamp)
      ensures old(Alone(id, val)) ==> View() == old(Activated(View(), Past(oldContainer), id, val.value, sysdate))
      ensures forall k :: k in activeInstances && k != id ==>
        View().active[k] ==
          if result && activeInstances[k] == val then Entry(val.value, sysdate) else old(View().active[k])
      ensures View().inactive == old(View().inactive) - {id}
      ensures oldContainer != null && (!result || val !in oldContainer.activeInstances.Values) ==>
        oldContainer.View() == old(oldContainer.View())
      ensures activeInstances.Values <= old(activeInstances.Values) + {val, activeInstances[id]}
    {
      result := false;
      if oldContainer != null && id in oldContainer.activeInstances
         && val.value == oldContainer.activeInstances[id].value {
        activeInstances := activeInstances[id := oldContainer.activeInstances[id]];
      } else if id !in activeInstances || val.value != activeInstances[id].value {
        activeInstances := activeInstances[id := val];
        val.timestamp := sysdate;
        result := true;
      }
      inactiveInstances := inactiveInstances - {id};
      assert forall k :: k in activeInstances && k != id ==> activeInstances[k] == old(activeInstances[k]);
      if old(Alone(id, val)) {
        ActivatedIs(old(View()), old(Past(oldContainer)), id, val.value, sysdate, View());
      }
    }

    method Deactivate(id: K, sysdate: Time, oldContainer: NoCopyGranularContainer?<K, V>)
      requires oldContainer != this
      modifies this
      ensures View() == old(Deactivated(View(), Past(oldContainer), id, sysdate))
      ensures activeInstances.Values <= old(activeInstances.Values)
    {
      var timestamp := sysdate;
      if oldContainer != null && id in oldContainer.inactiveInstances {
        timestamp := oldContainer.inactiveInstances[id];
      }
      inactiveInstances := inactiveInstances[id := timestamp];
      activeInstances := activeInstances - {id};
    }

    method DeactivateNonactive(oldContainer: NoCopyGranularContainer<K, V>, sysdate: Time)
      returns (deactivatedCount: nat)
      requires oldContainer != this
      modifies this`inactiveInstances
      ensures View() == old(NonactiveDeactivated(View(), oldContainer.View(), sysdate))
      ensures deactivatedCount ==
        old(|ActiveDropped(View(), oldContainer.View(), sysdate).inactive| - |inactiveInstances|)
    {
      inactiveInstances, deactivatedCount := TombstonesFor(
        activeInstances.Keys, inactiveInstances, oldContainer.activeInstances.Keys, oldContainer.inactiveInstances, sysdate,
        View(), oldContainer.View());
    }

    // Copies only from the first tombstone to erase on; order is the order of iteration.
    method CleanDeactivated(timestamp: Time, order: seq<K>)
      requires forall k :: k in order <==> k in inactiveInstances
      requires forall i, j :: 0 <= i < j < |order| ==> order[i] != order[j]
      modifies this`inactiveInstances
      ensures View() == old(Cleaned(View(), timestamp))
    {
      var eraseFound := false;
      var newInactiveMap: map<K, Time> := map[];
      var i := 0;
      while i < |order|
        invariant i <= |order|
        invariant !eraseFound ==> forall j :: 0 <= j < i ==> inactiveInstances[order[j]] >= timestamp
        invariant eraseFound ==> forall k :: k in newInactiveMap <==> k in order[..i] && inactiveInstances[k] >= timestamp
        invariant eraseFound ==> forall k :: k in newInactiveMap ==> newInactiveMap[k] == inactiveInstances[k]
      {
        var k := order[i];
        assert order[..i + 1] == order[..i] + [k];
        if inactiveInstances[k] < timestamp {
          if !eraseFound {
            newInactiveMap := map x | x in order[..i] :: inactiveInstances[x];
            eraseFound := true;
          }
        } else if eraseFound {
          newInactiveMap := newInactiveMap[k := inactiveInstances[k]];
        }
        i := i + 1;
      }
      assert order[..i] == order;
      if eraseFound {
        CleanedIs(View(), timestamp, newInactiveMap);
        inactiveInstances := newInactiveMap;
      } else {
        CleanedIs(View(), timestamp, inactiveInstances);
      }
    }

    method MaxStamp() returns (stamp: Time)
      ensures IsMaxStamp(View(), stamp)
    {
      stamp := 0;
      var todo := activeInstances.Keys;
      while todo != {}
        invariant todo <= activeInstances.Keys && 0 <= stamp
        invariant forall k :: k in activeInstances && k !in todo ==> activeInstances[k].timestamp <= stamp
        invariant stamp == 0 || exists k :: k in View().active && View().active[k].stamp == stamp
        decreases |todo|
      {
        var k :| k in todo;
        if stamp < activeInstances[k].timestamp {
          stamp := activeInstances[k].timestamp;
          assert View().active[k].stamp == stamp;
        }
        todo := todo - {k};
      }
      todo := inactiveInstances.Keys;
      while todo != {}
        invariant todo <= inactiveInstances.Keys && 0 <= stamp
        invariant forall k :: k in View().active ==> View().active[k].stamp <= stamp
        invariant forall k :: k in inactiveInstances && k !in todo ==> inactiveInstances[k] <= stamp
        invariant stamp == 0
          || (exists k :: k in View().active && View().active[k].stamp == stamp)
          || (exists k :: k in inactiveInstances && inactiveInstances[k] == stamp)
        decreases |todo|
      {
        var k :| k in todo;
        if stamp < inactiveInstances[k] {
          stamp := inactiveInstances[k];
        }
        todo := todo - {k};
      }
    }
  }

  lemma ActivatedIs<K, V>(s: Snapshot<K, V>, past: Snapshot<K, V>, id: K, v: V, sysdate: Time, r: Snapshot<K, V>)
    requires forall k :: k in r.active <==> k in s.active || k == id
    requires forall k :: k in r.active && k != id ==> r.active[k] == s.active[k]
    requires r.active[id] == EntryAfter(s, past, id, v, sysdate) && r.inactive == s.inactive - {id}
    ensures r == Activated(s, past, id, v, sysdate)
  {
  }

  lemma CleanedIs<K, V>(s: Snapshot<K, V>, cut: Time, r: map<K, Time>)
    requires forall k :: k in r <==> k in s.inactive && s.inactive[k] >= cut
    requires forall k :: k in r ==> r[k] == s.inactive[k]
    ensures Cleaned(s, cut) == s.(inactive := r)
  {
  }

  // Either loop of deactivate_nonactive: a tombstone for each key that has no entry of either kind.
  method InsertUnmentioned<K(==)>(inactive: map<K, Time>, active: set<K>, tombstones: map<K, Time>)
    returns (r: map<K, Time>, inserted: nat)
    ensures forall k :: k in r <==> k in inactive || (k in tombstones && k !in active)
    ensures forall k :: k in r ==> r[k] == if k in inactive then inactive[k] else tombstones[k]
    ensures inserted == |r| - |inactive|
  {
    r, inserted := inactive, 0;
    var todo := tombstones.Keys;
    while todo != {}
      invariant todo <= tombstones.Keys
      invariant forall k :: k in r <==> k in inactive || (k in tombstones && k !in active && k !in todo)
      invariant forall k :: k in r ==> r[k] == if k in inactive then inactive[k] else tombstones[k]
      invariant inserted == |r| - |inactive|
      decreases todo
    {
      var k :| k in todo;
      todo := todo - {k};
      if k !in active && k !in r {
        r := r[k := tombstones[k]];
        inserted := inserted + 1;
      }
    }
  }

  lemma DroppedIs<K, V>(s: Snapshot<K, V>, past: Snapshot<K, V>, sysdate: Time, r: map<K, Time>)
    requires forall k :: k in r <==> k in s.inactive || (k in past.active && k !in s.active)
    requires forall k :: k in r ==> r[k] == if k in s.inactive then s.inactive[k] else sysdate
    ensures ActiveDropped(s, past, sysdate) == Snapshot(s.active, r)
  {
  }

  lemma KeptIs<K, V>(s: Snapshot<K, V>, past: Snapshot<K, V>, r: map<K, Time>)
    requires forall k :: k in r <==> k in s.inactive || (k in past.inactive && k !in s.active)
    requires forall k :: k in r ==> r[k] == if k in s.inactive then s.inactive[k] else past.inactive[k]
    ensures InactiveKept(s, past) == Snapshot(s.active, r)
  {
  }

  // deactivate_nonactive on the two maps of this container, s, and of the old one, past.
  method TombstonesFor<K(==), V>(active: set<K>, inactive: map<K, Time>, pastActive: set<K>, pastInactive: map<K, Time>,
                                 sysdate: Time, ghost s: Snapshot<K, V>, ghost past: Snapshot<K, V>)
    returns (rest: map<K, Time>, deactivatedCount: nat)
    requires active == s.active.Keys && inactive == s.inactive
    requires pastActive == past.active.Keys && pastInactive == past.inactive
    ensures Snapshot(s.active, rest) == NonactiveDeactivated(s, past, sysdate)
    ensures deactivatedCount == |ActiveDropped(s, past, sysdate).inactive| - |s.inactive|
  {
    var dropped := map k | k in pastActive :: sysdate;
    var all: map<K, Time>;
    all, deactivatedCount := InsertUnmentioned(inactive, active, dropped);
    DroppedIs(s, past, sysdate, all);
    var kept, _ := InsertUnmentioned(all, active, pastInactive);
    rest := kept;
    KeptIs(Snapshot(s.active, all), past, rest);
  }
}
