// The nodes json_parse links together, and what a reader gets from them.
//
// A pointer is an index: into the buffer for keys, strings and numbers, into the allocated nodes for lists; 0 is the
// null pointer. An open bracket keeps its nodes in a circle and knows the last one, so that adding a node and finding
// the first one take one step each.
module GasonNodes {
  import opened GasonText
  import opened Options

  datatype JsonValue =
    | NullValue
    | BoolValue(b: bool)
    | NumberValue(at: nat)
    | StringValue(at: nat)
    | ListValue(isObject: bool, node: nat)

  datatype JsonNode = JsonNode(value: JsonValue, next: nat, key: nat)

  datatype JsonList = JsonList(isObject: bool, tail: nat, key: nat)

  // ---- JsonList::grow_the_tail and cut_the_head ----

  function GrowTheTail(nodes: seq<JsonNode>, list: JsonList, value: JsonValue, key: nat): (seq<JsonNode>, JsonList)
    requires list.tail < |nodes|
  {
    var p := |nodes|;
    if list.tail == 0 then (nodes + [JsonNode(value, p, key)], list.(tail := p, key := 0))
    else
      var tail := nodes[list.tail];
      (nodes[list.tail := tail.(next := p)] + [JsonNode(value, tail.next, key)], list.(tail := p, key := 0))
  }

  function CutTheHead(nodes: seq<JsonNode>, list: JsonList): (seq<JsonNode>, JsonValue)
    requires list.tail < |nodes|
  {
    if list.tail == 0 then (nodes, ListValue(list.isObject, 0))
    else
      var tail := nodes[list.tail];
      (nodes[list.tail := tail.(next := 0)], ListValue(list.isObject, tail.next))
  }

  // ---- What a reader gets ----

  // A C string.
  ghost predicate StringAt(b: string, at: nat, s: string, limit: nat) {
    && 0 < at && at + |s| <= limit < |b|
    && (forall i :: 0 <= i < |s| ==> s[i] == b[at + i])
    && b[at + |s|] == NUL
  }

  // find_end_of_number ends where the number ended when it was parsed.
  ghost predicate NumberAt(b: string, at: nat, s: string, limit: nat) {
    && at + |s| <= limit < |b|
    && (forall i :: 0 <= i < |s| ==> s[i] == b[at + i])
    && NumberEnd(b, at) == at + |s|
  }

  // The heap the values live in. Bytes up to and at limit are final. A node belongs to the open bracket that is
  // owner[i].value levels up, or to a closed one if owner[i] is None.
  datatype Heap = Heap(bytes: string, limit: nat, nodes: seq<JsonNode>, owner: seq<Option<nat>>)

  ghost predicate Sealed(h: Heap, i: nat) {
    i < |h.nodes| && i < |h.owner| && h.owner[i].None?
  }

  ghost predicate Reads(h: Heap, v: JsonValue, j: Json)
    decreases j
  {
    match j
    case Null => v == NullValue
    case Bool(x) => v == BoolValue(x)
    case Number(s) => v.NumberValue? && NumberAt(h.bytes, v.at, s, h.limit)
    case String(s) => v.StringValue? && StringAt(h.bytes, v.at, s, h.limit)
    case List(isObject, items) => v.ListValue? && v.isObject == isObject && Chain(h, v.node, isObject, items)
  }

  // Following next from node, one meets the items and then the null pointer.
  ghost predicate Chain(h: Heap, node: nat, isObject: bool, items: seq<Member>)
    decreases items
  {
    if items == [] then node == 0
    else
      && 0 < node && Sealed(h, node)
      && NodeReads(h, h.nodes[node], isObject, items[0])
      && Chain(h, h.nodes[node].next, isObject, items[1..])
  }

  ghost predicate NodeReads(h: Heap, node: JsonNode, isObject: bool, m: Member)
    decreases m
  {
    && (if isObject then StringAt(h.bytes, node.key, m.key, h.limit) else m.key == "")
    && Reads(h, node.value, m.value)
  }

  // ---- Open brackets ----

  ghost predicate KeyReads(h: Heap, key: nat, k: Option<string>) {
    match k
    case None => key == 0
    case Some(s) => StringAt(h.bytes, key, s, h.limit)
  }

  // The circle of the bracket at this level: the nodes ids, in order of allocation, read as the items of the frame.
  ghost predicate ListReads(h: Heap, level: nat, list: JsonList, frame: Frame, ids: seq<nat>) {
    && list.isObject == frame.isObject && KeyReads(h, list.key, frame.key) && (frame.isObject || frame.key.None?)
    && |ids| == |frame.items| && list.tail == (if ids == [] then 0 else ids[|ids| - 1])
    && (forall i :: 0 <= i < |ids| ==> 0 < ids[i] < |h.nodes| && Owned(h, ids[i], level))
    && (forall i :: 0 <= i < |ids| ==> NodeReads(h, h.nodes[ids[i]], frame.isObject, frame.items[i]))
    && (forall i :: 0 <= i < |ids| ==> h.nodes[ids[i]].next == ids[if i + 1 < |ids| then i + 1 else 0])
    && (forall i, j :: 0 <= i < j < |ids| ==> ids[i] < ids[j])
  }

  ghost predicate Owned(h: Heap, i: nat, level: nat) {
    i < |h.owner| && h.owner[i] == Some(level)
  }

  ghost predicate StackReads(h: Heap, lists: seq<JsonList>, frames: seq<Frame>, ids: seq<seq<nat>>) {
    && |lists| == |frames| == |ids| && |h.owner| == |h.nodes| > 0
    && forall k :: 0 <= k < |frames| ==> ListReads(h, k, lists[k], frames[k], ids[k])
  }

  // ---- What does not disturb a reader ----

  // Sealed nodes and final bytes are as they were.
  ghost predicate Keeps(h: Heap, g: Heap) {
    && |g.bytes| == |h.bytes| && h.limit <= g.limit < |g.bytes|
    && (forall i :: 0 <= i <= h.limit ==> g.bytes[i] == h.bytes[i])
    && |h.nodes| <= |g.nodes| && |h.owner| == |h.nodes| && |g.owner| == |g.nodes|
    && (forall i :: 0 <= i < |h.nodes| && h.owner[i].None? ==> g.owner[i].None? && g.nodes[i] == h.nodes[i])
  }

  // So are the nodes of the open bracket at this level.
  ghost predicate KeepsLevel(h: Heap, g: Heap, level: nat) {
    && |h.nodes| <= |g.nodes| && |h.owner| == |h.nodes| && |g.owner| == |g.nodes|
    && (forall i :: 0 <= i < |h.nodes| && h.owner[i] == Some(level) ==>
          g.owner[i] == Some(level) && g.nodes[i] == h.nodes[i])
  }

  // Only nodes of the open bracket at this level may be different.
  ghost predicate KeepsOthers(h: Heap, g: Heap, level: nat) {
    && |h.nodes| <= |g.nodes| && |h.owner| == |h.nodes| && |g.owner| == |g.nodes|
    && (forall i :: 0 <= i < |h.nodes| && h.owner[i] != Some(level) ==> g.owner[i] == h.owner[i] && g.nodes[i] == h.nodes[i])
  }

  lemma {:induction false} SkipDecAgrees(a: string, b: string, p: nat)
    requires p <= |a| && p <= |b| && forall i :: p <= i <= SkipDec(a, p) ==> At(a, i) == At(b, i)
    ensures SkipDec(b, p) == SkipDec(a, p)
    decreases |a| - p
  {
    assert At(a, p) == At(b, p);
    if p < |a| && IsDec(a[p]) {
      SkipDecAgrees(a, b, p + 1);
    }
  }

  lemma FractionAgrees(a: string, b: string, p: nat)
    requires p <= |a| && p <= |b| && forall i :: p <= i <= SkipFraction(a, p) ==> At(a, i) == At(b, i)
    ensures SkipFraction(b, p) == SkipFraction(a, p)
  {
    assert At(a, p) == At(b, p);
    if At(a, p) == '.' {
      SkipDecAgrees(a, b, p + 1);
    }
  }

  lemma ExponentAgrees(a: string, b: string, p: nat)
    requires p <= |a| && p <= |b| && forall i :: p <= i <= SkipExponent(a, p) ==> At(a, i) == At(b, i)
    ensures SkipExponent(b, p) == SkipExponent(a, p)
  {
    assert At(a, p) == At(b, p);
    if At(a, p) == 'e' || At(a, p) == 'E' {
      assert At(a, p + 1) == At(b, p + 1);
      SkipDecAgrees(a, b, SkipSign(a, p + 1));
    }
  }

  // Where a number ends depends on its characters and the one behind it.
  lemma NumberEndAgrees(a: string, b: string, p: nat)
    requires p <= |a| && p <= |b| && forall i :: p <= i <= NumberEnd(a, p) ==> At(a, i) == At(b, i)
    ensures NumberEnd(b, p) == NumberEnd(a, p)
  {
    assert At(a, p) == At(b, p);
    SkipDecAgrees(a, b, SkipSign(a, p));
    FractionAgrees(a, b, SkipDec(a, SkipSign(a, p)));
    ExponentAgrees(a, b, SkipFraction(a, SkipDec(a, SkipSign(a, p))));
  }

  // find_end_of_number reads digits behind the place of the dot whether there is a dot or not.
  method FindEndOfNumber(text: string, start: nat) returns (p: nat)
    requires start <= |text|
    ensures p == NumberEnd(text, start)
  {
    p := start;
    if IsSign(At(text, p)) {
      p := p + 1;
    }
    p := PassDigits(text, p);
    if At(text, p) == '.' {
      p := p + 1;
    }
    p := PassDigits(text, p);
    if At(text, p) == 'e' || At(text, p) == 'E' {
      p := p + 1;
      if IsSign(At(text, p)) {
        p := p + 1;
      }
      p := PassDigits(text, p);
    }
  }

  method PassDigits(text: string, start: nat) returns (p: nat)
    requires start <= |text|
    ensures p == SkipDec(text, start)
  {
    p := start;
    while IsDec(At(text, p))
      invariant start <= p <= |text| && SkipDec(text, p) == SkipDec(text, start)
      decreases |text| - p
    {
      p := p + 1;
    }
  }

  lemma NumberKept(h: Heap, g: Heap, at: nat, s: string)
    requires Keeps(h, g) && NumberAt(h.bytes, at, s, h.limit)
    ensures NumberAt(g.bytes, at, s, g.limit)
  {
    NumberEndAgrees(h.bytes, g.bytes, at);
  }

  lemma {:induction false} ReadsKept(h: Heap, g: Heap, v: JsonValue, j: Json)
    requires Keeps(h, g) && Reads(h, v, j)
    ensures Reads(g, v, j)
    decreases j
  {
    match j
    case Number(s) => NumberKept(h, g, v.at, s);
    case List(isObject, items) => ChainKept(h, g, v.node, isObject, items);
    case _ =>
  }

  lemma {:induction false} ChainKept(h: Heap, g: Heap, node: nat, isObject: bool, items: seq<Member>)
    requires Keeps(h, g) && Chain(h, node, isObject, items)
    ensures Chain(g, node, isObject, items)
    decreases items
  {
    if items != [] {
      NodeKept(h, g, h.nodes[node], isObject, items[0]);
      ChainKept(h, g, h.nodes[node].next, isObject, items[1..]);
    }
  }

  lemma {:induction false} NodeKept(h: Heap, g: Heap, node: JsonNode, isObject: bool, m: Member)
    requires Keeps(h, g) && NodeReads(h, node, isObject, m)
    ensures NodeReads(g, node, isObject, m)
    decreases m
  {
    ReadsKept(h, g, node.value, m.value);
  }

  lemma ListKept(h: Heap, g: Heap, level: nat, list: JsonList, frame: Frame, ids: seq<nat>)
    requires Keeps(h, g) && KeepsLevel(h, g, level) && ListReads(h, level, list, frame, ids)
    ensures ListReads(g, level, list, frame, ids)
  {
    forall i | 0 <= i < |ids| ensures NodeReads(g, g.nodes[ids[i]], frame.isObject, frame.items[i]) && Owned(g, ids[i], level) {
      assert Owned(h, ids[i], level);
      NodeKept(h, g, h.nodes[ids[i]], frame.isObject, frame.items[i]);
    }
  }

  lemma StackKept(h: Heap, g: Heap, lists: seq<JsonList>, frames: seq<Frame>, ids: seq<seq<nat>>)
    requires Keeps(h, g) && StackReads(h, lists, frames, ids)
    requires forall k :: 0 <= k < |frames| ==> KeepsLevel(h, g, k)
    ensures StackReads(g, lists, frames, ids)
  {
    forall k | 0 <= k < |frames| ensures ListReads(g, k, lists[k], frames[k], ids[k]) {
      ListKept(h, g, k, lists[k], frames[k], ids[k]);
    }
  }
}
