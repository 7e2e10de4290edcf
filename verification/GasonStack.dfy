// What json_parse does to its stack of open brackets, read through the nodes.
module GasonStack {
  import opened GasonNodes
  import opened GasonText
  import opened Options

  // ---- A bracket grows ----

  // A new node goes behind the last one; it belongs to the innermost bracket.
  lemma Grows(h: Heap, level: nat, list: JsonList, frame: Frame, ids: seq<nat>, value: JsonValue, key: nat, m: Member)
    requires |h.owner| == |h.nodes| > 0 && ListReads(h, level, list, frame, ids) && h.limit < |h.bytes|
    requires NodeReads(h, JsonNode(value, 0, key), frame.isObject, m)
    ensures list.tail < |h.nodes|
    ensures var (nodes', list') := GrowTheTail(h.nodes, list, value, key);
      var g := h.(nodes := nodes', owner := h.owner + [Some(level)]);
      && Keeps(h, g) && KeepsOthers(h, g, level)
      && ListReads(g, level, list', Frame(frame.isObject, None, frame.items + [m]), ids + [|h.nodes|])
  {
    if ids != [] {
      assert Owned(h, list.tail, level);
    }
    var (nodes', list') := GrowTheTail(h.nodes, list, value, key);
    var g := h.(nodes := nodes', owner := h.owner + [Some(level)]);
    var items', ids' := frame.items + [m], ids + [|h.nodes|];
    assert Keeps(h, g);
    NodeKept(h, g, JsonNode(value, 0, key), frame.isObject, m);
    forall i | 0 <= i < |ids'|
      ensures Owned(g, ids'[i], level) && NodeReads(g, g.nodes[ids'[i]], frame.isObject, items'[i])
    {
      if i < |ids| {
        assert Owned(h, ids[i], level);
        NodeKept(h, g, h.nodes[ids[i]], frame.isObject, frame.items[i]);
      }
    }
    GrownCircle(h.nodes, list, value, key, ids);
  }

  ghost predicate Circle(nodes: seq<JsonNode>, ids: seq<nat>) {
    && (forall i :: 0 <= i < |ids| ==> 0 < ids[i] < |nodes|)
    && (forall i :: 0 <= i < |ids| ==> nodes[ids[i]].next == ids[if i + 1 < |ids| then i + 1 else 0])
    && (forall i, j :: 0 <= i < j < |ids| ==> ids[i] < ids[j])
  }

  lemma GrownCircle(nodes: seq<JsonNode>, list: JsonList, value: JsonValue, key: nat, ids: seq<nat>)
    requires nodes != [] && Circle(nodes, ids) && list.tail == (if ids == [] then 0 else ids[|ids| - 1])
    ensures Circle(GrowTheTail(nodes, list, value, key).0, ids + [|nodes|])
  {
  }

  // ---- A bracket is closed ----

  function Freed(owner: seq<Option<nat>>, level: nat): seq<Option<nat>> {
    seq(|owner|, i requires 0 <= i < |owner| => if owner[i] == Some(level) then None else owner[i])
  }

  // From the k-th node of the circle on, the chain that is left reads as the items from the k-th on.
  lemma {:induction false} CutChain(g: Heap, isObject: bool, items: seq<Member>, ids: seq<nat>, k: nat)
    requires k <= |ids| == |items|
    requires forall i :: 0 <= i < |ids| ==> 0 < ids[i] < |g.nodes| && Sealed(g, ids[i])
    requires forall i :: 0 <= i < |ids| ==> NodeReads(g, g.nodes[ids[i]], isObject, items[i])
    requires forall i :: 0 <= i < |ids| ==> g.nodes[ids[i]].next == (if i + 1 < |ids| then ids[i + 1] else 0)
    ensures Chain(g, if k < |ids| then ids[k] else 0, isObject, items[k..])
    decreases |ids| - k
  {
    if k < |ids| {
      CutChain(g, isObject, items, ids, k + 1);
      assert items[k..][0] == items[k] && items[k..][1..] == items[k + 1..];
      assert Sealed(g, ids[k]);
    }
  }

  lemma Cut(h: Heap, level: nat, list: JsonList, frame: Frame, ids: seq<nat>)
    requires |h.owner| == |h.nodes| > 0 && ListReads(h, level, list, frame, ids) && h.limit < |h.bytes|
    ensures list.tail < |h.nodes|
    ensures var (nodes', value) := CutTheHead(h.nodes, list);
      var g := h.(nodes := nodes', owner := Freed(h.owner, level));
      && Keeps(h, g) && KeepsOthers(h, g, level)
      && Reads(g, value, List(frame.isObject, frame.items))
  {
    if ids != [] {
      assert Owned(h, list.tail, level);
    }
    var (nodes', value) := CutTheHead(h.nodes, list);
    var g := h.(nodes := nodes', owner := Freed(h.owner, level));
    assert Keeps(h, g);
    forall i | 0 <= i < |ids| ensures Sealed(g, ids[i]) && NodeReads(g, g.nodes[ids[i]], frame.isObject, frame.items[i]) {
      assert Owned(h, ids[i], level);
      NodeKept(h, g, h.nodes[ids[i]], frame.isObject, frame.items[i]);
    }
    CutChain(g, frame.isObject, frame.items, ids, 0);
    assert frame.items[0..] == frame.items;
  }

  // ---- What one round of the loop does to the stack ----

  lemma Opens(h: Heap, lists: seq<JsonList>, frames: seq<Frame>, ids: seq<seq<nat>>, isObject: bool)
    requires StackReads(h, lists, frames, ids)
    ensures StackReads(h, lists + [JsonList(isObject, 0, 0)], frames + [Frame(isObject, None, [])], ids + [[]])
  {
    var lists', frames', ids' := lists + [JsonList(isObject, 0, 0)], frames + [Frame(isObject, None, [])], ids + [[]];
    forall k | 0 <= k < |frames'| ensures ListReads(h, k, lists'[k], frames'[k], ids'[k]) {
      if k < |frames| {
        assert ListReads(h, k, lists[k], frames[k], ids[k]);
      }
    }
  }

  // The innermost bracket is replaced.
  lemma Retops(h: Heap, lists: seq<JsonList>, frames: seq<Frame>, ids: seq<seq<nat>>, list: JsonList, frame: Frame,
               id: seq<nat>)
    requires |lists| == |frames| == |ids| > 0 && ListReads(h, |frames| - 1, list, frame, id)
    requires StackReads(h, lists[..|frames| - 1], frames[..|frames| - 1], ids[..|frames| - 1])
    ensures StackReads(h, lists[..|frames| - 1] + [list], frames[..|frames| - 1] + [frame], ids[..|frames| - 1] + [id])
  {
    var n := |frames| - 1;
    forall k | 0 <= k < n + 1
      ensures ListReads(h, k, (lists[..n] + [list])[k], (frames[..n] + [frame])[k], (ids[..n] + [id])[k])
    {
      if k < n {
        assert ListReads(h, k, lists[..n][k], frames[..n][k], ids[..n][k]);
      }
    }
  }

  lemma KeyNamed(h: Heap, lists: seq<JsonList>, frames: seq<Frame>, ids: seq<seq<nat>>, v: JsonValue, s: string)
    requires StackReads(h, lists, frames, ids) && frames != [] && Reads(h, v, String(s))
    requires var top := frames[|frames| - 1]; top.isObject && top.key.None?
    ensures var n := |frames| - 1;
      StackReads(h, lists[..n] + [lists[n].(key := v.at)], frames[..n] + [frames[n].(key := Some(s))], ids)
  {
    var n := |frames| - 1;
    assert ListReads(h, n, lists[n], frames[n], ids[n]);
    Retops(h, lists, frames, ids, lists[n].(key := v.at), frames[n].(key := Some(s)), ids[n]);
    assert ids[..n] + [ids[n]] == ids;
  }

  function KeyOf(frame: Frame): string {
    if frame.key.Some? then frame.key.value else ""
  }

  lemma Adds(h: Heap, lists: seq<JsonList>, frames: seq<Frame>, ids: seq<seq<nat>>, v: JsonValue, j: Json)
    requires StackReads(h, lists, frames, ids) && frames != [] && Reads(h, v, j) && h.limit < |h.bytes|
    requires var top := frames[|frames| - 1]; top.isObject ==> top.key.Some?
    ensures var n := |frames| - 1;
      && lists[n].tail < |h.nodes|
      && var (nodes', list') := GrowTheTail(h.nodes, lists[n], v, lists[n].key);
      var g := h.(nodes := nodes', owner := h.owner + [Some(n)]);
      && Keeps(h, g)
      && StackReads(g, lists[..n] + [list'],
                    frames[..n] + [frames[n].(key := None, items := frames[n].items + [Member(KeyOf(frames[n]), j)])],
                    ids[..n] + [ids[n] + [|h.nodes|]])
  {
    var n := |frames| - 1;
    var m := Member(KeyOf(frames[n]), j);
    assert ListReads(h, n, lists[n], frames[n], ids[n]);
    Grows(h, n, lists[n], frames[n], ids[n], v, lists[n].key, m);
    var (nodes', list') := GrowTheTail(h.nodes, lists[n], v, lists[n].key);
    var g := h.(nodes := nodes', owner := h.owner + [Some(n)]);
    StackKept(h, g, lists[..n], frames[..n], ids[..n]);
    Retops(g, lists, frames, ids, list', Frame(frames[n].isObject, None, frames[n].items + [m]), ids[n] + [|h.nodes|]);
  }

  lemma Shuts(h: Heap, lists: seq<JsonList>, frames: seq<Frame>, ids: seq<seq<nat>>)
    requires StackReads(h, lists, frames, ids) && frames != [] && h.limit < |h.bytes|
    ensures var n := |frames| - 1;
      && lists[n].tail < |h.nodes|
      && var (nodes', value) := CutTheHead(h.nodes, lists[n]);
      var g := h.(nodes := nodes', owner := Freed(h.owner, n));
      && Keeps(h, g) && StackReads(g, lists[..n], frames[..n], ids[..n])
      && Reads(g, value, List(frames[n].isObject, frames[n].items))
  {
    var n := |frames| - 1;
    assert ListReads(h, n, lists[n], frames[n], ids[n]);
    Cut(h, n, lists[n], frames[n], ids[n]);
    var (nodes', value) := CutTheHead(h.nodes, lists[n]);
    var g := h.(nodes := nodes', owner := Freed(h.owner, n));
    StackKept(h, g, lists[..n], frames[..n], ids[..n]);
  }
}
