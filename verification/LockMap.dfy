// StrictLockMap: a lock for every key that somebody uses, kept by counted references. The machine has one step for
// each critical section and each move of a lock; any number of threads take them in any order.
module LockMap {

  // A LockHolder: raw pointers to it are indices. lock is free, read by some or written by one.
  datatype Holder = Holder(key: int, refs: nat, readers: nat, writer: bool)

  // One call of read_lock or write_lock and the guard it gives.
  datatype Phase =
    | Found // get_ has its reference and has left map_lock_
    | Referenced // the guard under construction has another one and waits for the lock
    | Locked // get_ has not dropped its own reference yet
    | Held // the caller has the guard
    | Unlocked // the destructor of the guard is between its two members
    | Gone

  datatype Guard = Guard(holder: nat, write: bool, phase: Phase)

  datatype State = State(map_: map<int, nat>, holders: seq<Holder>, guards: seq<Guard>)

  datatype Event =
    | Get(key: int, write: bool)
    | AddRef(g: nat)
    | Acquire(g: nat)
    | DropOwn(g: nat)
    | Unlock(g: nat)
    | Drop(g: nat)

  function Start(): State {
    State(map[], [], [])
  }

  // ---- The two sections under map_lock_ ----

  // get_ up to where it leaves map_lock_.
  function GetHolder(s: State, key: int): (t: State)
    requires key in s.map_ ==> s.map_[key] < |s.holders|
    ensures key in t.map_
  {
    if key in s.map_ then
      var h := s.map_[key];
      s.(holders := s.holders[h := s.holders[h].(refs := s.holders[h].refs + 1)])
    else s.(map_ := s.map_[key := |s.holders|], holders := s.holders + [Holder(key, 1, 0, false)])
  }

  // remove_ref_no_delete_ and close_i_.
  function RemoveRef(s: State, h: nat): State
    requires h < |s.holders| && s.holders[h].refs > 0
  {
    var old_ := s.holders[h];
    var t := s.(holders := s.holders[h := old_.(refs := old_.refs - 1)]);
    if old_.refs == 1 then t.(map_ := t.map_ - {old_.key}) else t
  }

  // ---- The machine ----

  predicate Possible(s: State, e: Event) {
    match e
    case Get(key, _) => key in s.map_ ==> s.map_[key] < |s.holders|
    case AddRef(g) => g < |s.guards| && s.guards[g].phase.Found? && s.guards[g].holder < |s.holders|
    case Acquire(g) =>
      && g < |s.guards| && s.guards[g].phase.Referenced? && s.guards[g].holder < |s.holders|
      && !s.holders[s.guards[g].holder].writer && (s.guards[g].write ==> s.holders[s.guards[g].holder].readers == 0)
    case DropOwn(g) => g < |s.guards| && s.guards[g].phase.Locked? && CanDrop(s, s.guards[g].holder)
    case Unlock(g) => g < |s.guards| && s.guards[g].phase.Held? && s.guards[g].holder < |s.holders|
    case Drop(g) => g < |s.guards| && s.guards[g].phase.Unlocked? && CanDrop(s, s.guards[g].holder)
  }

  predicate CanDrop(s: State, h: nat) {
    h < |s.holders| && s.holders[h].refs > 0
  }

  function Moved(s: State, g: nat, phase: Phase): State
    requires g < |s.guards|
  {
    s.(guards := s.guards[g := s.guards[g].(phase := phase)])
  }

  function WithHolder(s: State, h: nat, holder: Holder): State
    requires h < |s.holders|
  {
    s.(holders := s.holders[h := holder])
  }

  function Next(s: State, e: Event): State
    requires Possible(s, e)
  {
    match e
    case Get(key, write) =>
      var t := GetHolder(s, key);
      t.(guards := t.guards + [Guard(t.map_[key], write, Found)])
    case AddRef(g) =>
      var h := s.guards[g].holder;
      Moved(WithHolder(s, h, s.holders[h].(refs := s.holders[h].refs + 1)), g, Referenced)
    case Acquire(g) =>
      var h := s.guards[g].holder;
      var o := s.holders[h];
      Moved(WithHolder(s, h, if s.guards[g].write then o.(writer := true) else o.(readers := o.readers + 1)), g, Locked)
    case DropOwn(g) => Moved(RemoveRef(s, s.guards[g].holder), g, Held)
    case Unlock(g) =>
      var h := s.guards[g].holder;
      var o := s.holders[h];
      Moved(WithHolder(s, h, if s.guards[g].write then o.(writer := false)
                             else o.(readers := if o.readers > 0 then o.readers - 1 else 0)), g, Unlocked)
    case Drop(g) => Moved(RemoveRef(s, s.guards[g].holder), g, Gone)
  }

  // ---- Counting ----

  datatype Kind = Refs | Readers | Writers

  // How often a guard counts for a holder.
  function Weight(x: Guard, h: nat, kind: Kind): nat {
    if x.holder != h then 0
    else
      match kind
      case Refs =>
        (match x.phase
         case Found => 1
         case Referenced => 2
         case Locked => 2
         case Held => 1
         case Unlocked => 1
         case Gone => 0)
      case Readers => if !x.write && (x.phase.Locked? || x.phase.Held?) then 1 else 0
      case Writers => if x.write && (x.phase.Locked? || x.phase.Held?) then 1 else 0
  }

  function Total(gs: seq<Guard>, h: nat, kind: Kind): nat {
    if gs == [] then 0 else Weight(gs[0], h, kind) + Total(gs[1..], h, kind)
  }

  lemma {:induction false} TotalUpdated(gs: seq<Guard>, i: nat, x: Guard, h: nat, kind: Kind)
    requires i < |gs|
    ensures Total(gs[i := x], h, kind) + Weight(gs[i], h, kind) == Total(gs, h, kind) + Weight(x, h, kind)
    decreases |gs|
  {
    if i == 0 {
      assert gs[i := x][1..] == gs[1..];
    } else {
      TotalUpdated(gs[1..], i - 1, x, h, kind);
      assert gs[i := x][1..] == gs[1..][i - 1 := x];
    }
  }

  lemma {:induction false} TotalAppended(gs: seq<Guard>, x: Guard, h: nat, kind: Kind)
    ensures Total(gs + [x], h, kind) == Total(gs, h, kind) + Weight(x, h, kind)
    decreases |gs|
  {
    if gs == [] {
      assert gs + [x] == [x] && [x][1..] == [];
    } else {
      TotalAppended(gs[1..], x, h, kind);
      assert (gs + [x])[1..] == gs[1..] + [x];
    }
  }

  lemma {:induction false} TotalAtLeast(gs: seq<Guard>, i: nat, h: nat, kind: Kind)
    requires i < |gs|
    ensures Weight(gs[i], h, kind) <= Total(gs, h, kind)
    decreases |gs|
  {
    if i > 0 {
      TotalAtLeast(gs[1..], i - 1, h, kind);
    }
  }

  lemma {:induction false} TotalOfTwo(gs: seq<Guard>, i: nat, j: nat, h: nat, kind: Kind)
    requires i < j < |gs|
    ensures Weight(gs[i], h, kind) + Weight(gs[j], h, kind) <= Total(gs, h, kind)
    decreases |gs|
  {
    if i == 0 {
      TotalAtLeast(gs[1..], j - 1, h, kind);
    } else {
      TotalOfTwo(gs[1..], i - 1, j - 1, h, kind);
    }
  }

  lemma {:induction false} TotalOfNone(gs: seq<Guard>, h: nat, kind: Kind)
    requires forall i :: 0 <= i < |gs| ==> gs[i].holder != h
    ensures Total(gs, h, kind) == 0
    decreases |gs|
  {
    if gs != [] {
      TotalOfNone(gs[1..], h, kind);
    }
  }

  // ---- The invariant ----

  // map_ holds exactly the holders that are referred to, each under its key.
  ghost predicate MapFits(s: State) {
    && (forall k :: k in s.map_ ==>
          s.map_[k] < |s.holders| && s.holders[s.map_[k]].key == k && s.holders[s.map_[k]].refs > 0)
    && (forall h :: 0 <= h < |s.holders| && s.holders[h].refs > 0 ==>
          s.holders[h].key in s.map_ && s.map_[s.holders[h].key] == h)
  }

  ghost predicate CountsFit(s: State) {
    && (forall i :: 0 <= i < |s.guards| ==> s.guards[i].holder < |s.holders|)
    && (forall h :: 0 <= h < |s.holders| ==> Fits(s.guards, h, s.holders[h]))
  }

  ghost predicate Fits(gs: seq<Guard>, h: nat, o: Holder) {
    && o.refs == Total(gs, h, Refs) && o.readers == Total(gs, h, Readers)
    && Total(gs, h, Writers) == (if o.writer then 1 else 0) && !(o.writer && o.readers > 0)
  }

  ghost predicate Inv(s: State) {
    MapFits(s) && CountsFit(s)
  }

  // One guard and its holder move together; the counts of the others stay.
  lemma CountsStay(s: State, g: nat, x: Guard, o: Holder)
    requires CountsFit(s) && g < |s.guards| && x.holder == s.guards[g].holder
    requires var h := x.holder;
      && o.refs + Weight(s.guards[g], h, Refs) == s.holders[h].refs + Weight(x, h, Refs)
      && o.readers + Weight(s.guards[g], h, Readers) == s.holders[h].readers + Weight(x, h, Readers)
      && (if o.writer then 1 else 0) + Weight(s.guards[g], h, Writers)
         == (if s.holders[h].writer then 1 else 0) + Weight(x, h, Writers)
      && !(o.writer && o.readers > 0)
    ensures CountsFit(s.(guards := s.guards[g := x], holders := s.holders[x.holder := o]))
  {
    var gs, hs := s.guards[g := x], s.holders[x.holder := o];
    forall h | 0 <= h < |hs| ensures Fits(gs, h, hs[h]) {
      assert Fits(s.guards, h, s.holders[h]);
      TotalUpdated(s.guards, g, x, h, Refs);
      TotalUpdated(s.guards, g, x, h, Readers);
      TotalUpdated(s.guards, g, x, h, Writers);
    }
  }

  lemma GetKeeps(s: State, key: int, write: bool)
    requires Inv(s)
    ensures Inv(Next(s, Get(key, write)))
  {
    var t := Next(s, Get(key, write));
    var x := t.guards[|s.guards|];
    forall h | 0 <= h < |t.holders| ensures Fits(t.guards, h, t.holders[h]) {
      TotalAppended(s.guards, x, h, Refs);
      TotalAppended(s.guards, x, h, Readers);
      TotalAppended(s.guards, x, h, Writers);
      if h < |s.holders| {
        assert Fits(s.guards, h, s.holders[h]);
      } else {
        TotalOfNone(s.guards, h, Refs);
        TotalOfNone(s.guards, h, Readers);
        TotalOfNone(s.guards, h, Writers);
      }
    }
  }

  // The erase in close_i_ finds its key.
  lemma RemoveRefKeeps(s: State, h: nat)
    requires MapFits(s) && CanDrop(s, h)
    ensures MapFits(RemoveRef(s, h)) && s.holders[h].key in s.map_
  {
  }

  lemma MoveKeepsCounts(s: State, e: Event)
    requires Inv(s) && Possible(s, e) && !e.Get?
    ensures CountsFit(Next(s, e))
  {
    var g := e.g;
    var h := s.guards[g].holder;
    var t := Next(s, e);
    assert Fits(s.guards, h, s.holders[h]);
    TotalAtLeast(s.guards, g, h, Refs);
    TotalAtLeast(s.guards, g, h, Readers);
    TotalAtLeast(s.guards, g, h, Writers);
    CountsStay(s, g, t.guards[g], t.holders[h]);
    assert t.guards == s.guards[g := t.guards[g]] && t.holders == s.holders[h := t.holders[h]];
  }

  lemma MoveKeepsMap(s: State, e: Event)
    requires Inv(s) && Possible(s, e) && !e.Get?
    ensures MapFits(Next(s, e))
  {
    var g := e.g;
    var h := s.guards[g].holder;
    if e.DropOwn? || e.Drop? {
      RemoveRefKeeps(s, h);
    } else {
      assert Fits(s.guards, h, s.holders[h]);
      TotalAtLeast(s.guards, g, h, Refs);
    }
  }

  lemma StepKeeps(s: State, e: Event)
    requires Inv(s) && Possible(s, e)
    ensures Inv(Next(s, e))
  {
    match e
    case Get(key, write) => GetKeeps(s, key, write);
    case _ =>
      MoveKeepsCounts(s, e);
      MoveKeepsMap(s, e);
  }

  ghost predicate Run(states: seq<State>, events: seq<Event>) {
    |states| == |events| + 1
    && forall i :: 0 <= i < |events| ==> Possible(states[i], events[i]) && states[i + 1] == Next(states[i], events[i])
  }

  lemma {:induction false} RunKeeps(states: seq<State>, events: seq<Event>, i: nat)
    requires Run(states, events) && states[0] == Start() && i <= |events|
    ensures Inv(states[i])
  {
    if i > 0 {
      RunKeeps(states, events, i - 1);
      StepKeeps(states[i - 1], events[i - 1]);
    }
  }

  // ---- What callers rely on ----

  predicate HasLock(x: Guard) {
    x.phase.Locked? || x.phase.Held?
  }

  // In every run, a guard for writing excludes every other guard for its key.
  lemma WritersAreAlone(states: seq<State>, events: seq<Event>, k: nat, i: nat, j: nat)
    requires Run(states, events) && states[0] == Start() && k <= |events|
    requires var s := states[k]; i < |s.guards| && j < |s.guards| && i != j && HasLock(s.guards[i]) && HasLock(s.guards[j])
    requires var s := states[k]; s.guards[i].holder < |s.holders| && s.guards[j].holder < |s.holders|
    requires var s := states[k]; s.holders[s.guards[i].holder].key == s.holders[s.guards[j].holder].key
    ensures !states[k].guards[i].write && !states[k].guards[j].write
  {
    RunKeeps(states, events, k);
    var s := states[k];
    var h := s.guards[i].holder;
    TotalAtLeast(s.guards, i, h, Refs);
    TotalAtLeast(s.guards, j, s.guards[j].holder, Refs);
    assert Fits(s.guards, h, s.holders[h]) && Fits(s.guards, s.guards[j].holder, s.holders[s.guards[j].holder]);
    assert s.guards[j].holder == h;
    TotalOfTwo(s.guards, if i < j then i else j, if i < j then j else i, h, Writers);
    TotalAtLeast(s.guards, i, h, Readers);
    TotalAtLeast(s.guards, j, h, Readers);
    TotalAtLeast(s.guards, i, h, Writers);
    TotalAtLeast(s.guards, j, h, Writers);
  }

  // In every run, once all guards are gone the map is empty.
  lemma NothingIsLeft(states: seq<State>, events: seq<Event>, k: nat)
    requires Run(states, events) && states[0] == Start() && k <= |events|
    requires forall i :: 0 <= i < |states[k].guards| ==> states[k].guards[i].phase.Gone?
    ensures states[k].map_ == map[]
  {
    RunKeeps(states, events, k);
    var s := states[k];
    forall key | key in s.map_ ensures false {
      var h := s.map_[key];
      assert Fits(s.guards, h, s.holders[h]);
      TotalOfGone(s.guards, h);
    }
    assert s.map_ == map[];
  }

  lemma {:induction false} TotalOfGone(gs: seq<Guard>, h: nat)
    requires forall i :: 0 <= i < |gs| ==> gs[i].phase.Gone?
    ensures Total(gs, h, Refs) == 0
    decreases |gs|
  {
    if gs != [] {
      TotalOfGone(gs[1..], h);
    }
  }

  lemma {:induction false} SomeoneCounts(gs: seq<Guard>, h: nat, kind: Kind) returns (i: nat)
    requires Total(gs, h, kind) > 0
    ensures i < |gs| && Weight(gs[i], h, kind) > 0
    decreases |gs|
  {
    if Weight(gs[0], h, kind) > 0 {
      i := 0;
    } else {
      i := SomeoneCounts(gs[1..], h, kind);
      i := i + 1;
    }
  }

  predicate Conflict(x: Guard, y: Guard) {
    x.holder == y.holder && HasLock(y) && (x.write || y.write)
  }

  // A guard that waits has to wait exactly as long as another one that it conflicts with has the lock.
  lemma WaitsForConflict(s: State, g: nat)
    requires Inv(s) && g < |s.guards| && s.guards[g].phase.Referenced?
    ensures Possible(s, Acquire(g)) <==> !(exists i :: 0 <= i < |s.guards| && Conflict(s.guards[g], s.guards[i]))
  {
    var x := s.guards[g];
    var h := x.holder;
    assert Fits(s.guards, h, s.holders[h]);
    if i :| 0 <= i < |s.guards| && Conflict(x, s.guards[i]) {
      TotalAtLeast(s.guards, i, h, Readers);
      TotalAtLeast(s.guards, i, h, Writers);
    }
    if s.holders[h].writer {
      var i := SomeoneCounts(s.guards, h, Writers);
      assert Conflict(x, s.guards[i]);
    } else if x.write && s.holders[h].readers > 0 {
      var i := SomeoneCounts(s.guards, h, Readers);
      assert Conflict(x, s.guards[i]);
    }
  }

  // ---- What was asked for ----

  // The guard x is for this key, to write or to read.
  predicate IsFor(s: State, g: nat, key: int, write: bool) {
    && g < |s.guards| && s.guards[g].holder < |s.holders|
    && s.holders[s.guards[g].holder].key == key && s.guards[g].write == write
  }

  lemma StaysFor(s: State, e: Event, g: nat, key: int, write: bool)
    requires Inv(s) && Possible(s, e) && IsFor(s, g, key, write)
    ensures IsFor(Next(s, e), g, key, write)
  {
  }

  // A call gets a guard for its key, to write if it asked for that and to read if not, and it is that as long as it
  // lives.
  lemma {:induction false} GuardsAsAsked(states: seq<State>, events: seq<Event>, i: nat, n: nat)
    requires Run(states, events) && states[0] == Start() && i < n <= |events| && events[i].Get?
    ensures IsFor(states[n], |states[i].guards|, events[i].key, events[i].write)
  {
    RunKeeps(states, events, n - 1);
    if n == i + 1 {
      GetKeeps(states[i], events[i].key, events[i].write);
    } else {
      GuardsAsAsked(states, events, i, n - 1);
      StaysFor(states[n - 1], events[n - 1], |states[i].guards|, events[i].key, events[i].write);
    }
  }

  // The step by which a guard comes nearer to its end.
  function Onward(s: State, g: nat): Event
    requires g < |s.guards|
  {
    match s.guards[g].phase
    case Found => AddRef(g)
    case Referenced => Acquire(g)
    case Locked => DropOwn(g)
    case Held => Unlock(g)
    case _ => Drop(g)
  }

  lemma OnlyWaitsForLock(s: State, g: nat)
    requires Inv(s) && g < |s.guards| && !s.guards[g].phase.Gone? && !s.guards[g].phase.Referenced?
    ensures Possible(s, Onward(s, g))
  {
    var h := s.guards[g].holder;
    assert Fits(s.guards, h, s.holders[h]);
    TotalAtLeast(s.guards, g, h, Refs);
  }

  // In no run do all guards wait: one that is not gone can move on, or another that keeps it from its lock can.
  lemma NobodyIsStuck(states: seq<State>, events: seq<Event>, n: nat, g: nat)
    requires Run(states, events) && states[0] == Start() && n <= |events|
    requires g < |states[n].guards| && !states[n].guards[g].phase.Gone?
    ensures var s := states[n];
      Possible(s, Onward(s, g)) || exists i :: 0 <= i < |s.guards| && Conflict(s.guards[g], s.guards[i])
                                                && Possible(s, Onward(s, i))
  {
    var s := states[n];
    RunKeeps(states, events, n);
    if !s.guards[g].phase.Referenced? {
      OnlyWaitsForLock(s, g);
    } else {
      WaitsForConflict(s, g);
      if i :| 0 <= i < |s.guards| && Conflict(s.guards[g], s.guards[i]) {
        OnlyWaitsForLock(s, i);
      }
    }
  }

  // ---- The class ----

  class StrictLockMap {
    var map_: map<int, nat>
    var holders: seq<Holder>

    ghost function View(guards: seq<Guard>): State
      reads this
    {
      State(map_, holders, guards)
    }

    // Under map_lock_; the constructor of the guard follows.
    method Get(key: int, ghost guards: seq<Guard>) returns (holder: nat)
      requires Inv(View(guards))
      modifies this
      ensures View(guards) == old(GetHolder(View(guards), key))
      ensures holder < |holders| && holders[holder].key == key && map_[key] == holder
    {
      if key in map_ {
        holder := map_[key];
        holders := holders[holder := holders[holder].(refs := holders[holder].refs + 1)];
      } else {
        holder := |holders|;
        holders := holders + [Holder(key, 1, 0, false)];
        map_ := map_[key := holder];
      }
    }

    // Under map_lock_; true if the holder has to be deleted.
    method RemoveRefNoDelete(holder: nat, ghost guards: seq<Guard>) returns (last: bool)
      requires Inv(View(guards)) && CanDrop(View(guards), holder)
      modifies this
      ensures View(guards) == old(RemoveRef(View(guards), holder))
      ensures last <==> holders[holder].refs == 0
    {
      holders := holders[holder := holders[holder].(refs := holders[holder].refs - 1)];
      last := holders[holder].refs == 0;
      if last {
        CloseI(holders[holder].key);
      }
    }

    // assert(erased_keys)
    method CloseI(key: int)
      requires key in map_
      modifies this
      ensures map_ == old(map_) - {key} && holders == old(holders)
    {
      map_ := map_ - {key};
    }
  }
}
