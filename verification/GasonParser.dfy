// json_parse itself: it unescapes the strings inside the buffer, keeps the open brackets in a fixed stack and links
// nodes in a circle. Proved against Parse of the text that was in the buffer.
module GasonParser {
  import opened GasonNodes
  import opened GasonStack
  import opened GasonText
  import GasonZones
  import opened Options

  // sizeof(JsonNode); a node without a key is allocated without the room for one.
  const NODE_SIZE: nat := 24
  const KEYLESS_NODE_SIZE: nat := 16

  // malloc: where the next zone of that many bytes is, after these.
  type Malloc = (seq<GasonZones.Zone>, nat) -> nat

  // It hands out no byte twice.
  ghost predicate Mallocs(malloc: Malloc) {
    forall zones: seq<GasonZones.Zone>, size: nat, i: nat ::
      i < |zones| ==> GasonZones.Apart(zones[i].base, zones[i].size, malloc(zones, size), size)
  }

  // The arena of the nodes. nodes[0] is the place of the null pointer and is never handed out; nodes[i + 1] lies in
  // the block i of the allocator.
  class NodePool {
    var nodes: seq<JsonNode>
    const zones: GasonZones.JsonAllocator

    constructor ()
      ensures |nodes| == 1 && Placed() && fresh(zones)
    {
      nodes := [JsonNode(NullValue, 0, 0)];
      zones := new GasonZones.JsonAllocator();
    }

    ghost predicate Placed()
      reads this, zones
    {
      zones.Valid() && Fits(nodes, zones.blocks)
    }

    // One more node, at the tail of the list.
    method Append(list: JsonList, value: JsonValue, malloc: Malloc) returns (list': JsonList)
      requires Placed() && Mallocs(malloc) && list.tail < |nodes| && (list.isObject || list.key == 0)
      modifies this, zones
      ensures Placed() && old(zones.blocks) <= zones.blocks
      ensures (nodes, list') == GrowTheTail(old(nodes), list, value, list.key)
    {
      var size := if list.isObject then NODE_SIZE else KEYLESS_NODE_SIZE;
      assert GasonZones.PowerOfTwo(4) && GasonZones.PowerOfTwo(8);
      var p := zones.Allocate(size, 8, malloc(zones.zones, GasonZones.ZoneSize(size, 8)));
      OneMoreFits(nodes, old(zones.blocks), list, value, GasonZones.Block(p, size));
      var grown := GrowTheTail(nodes, list, value, list.key);
      nodes, list' := grown.0, grown.1;
    }

    method TakeHead(list: JsonList) returns (value: JsonValue)
      requires Placed() && list.tail < |nodes|
      modifies this
      ensures Placed() && (nodes, value) == CutTheHead(old(nodes), list)
    {
      var cut := CutTheHead(nodes, list);
      nodes, value := cut.0, cut.1;
    }
  }

  // Every node has a block of its own, on a boundary for pointers and large enough for what is written into it.
  ghost predicate Fits(nodes: seq<JsonNode>, blocks: seq<GasonZones.Block>) {
    && |nodes| == |blocks| + 1
    && forall i :: 0 <= i < |blocks| ==>
         GasonZones.OnBoundary(blocks[i].at, 8)
         && blocks[i].size >= (if nodes[i + 1].key != 0 then NODE_SIZE else KEYLESS_NODE_SIZE)
  }

  lemma OneMoreFits(nodes: seq<JsonNode>, blocks: seq<GasonZones.Block>, list: JsonList, value: JsonValue,
                    block: GasonZones.Block)
    requires Fits(nodes, blocks) && list.tail < |nodes| && (list.isObject || list.key == 0)
    requires GasonZones.OnBoundary(block.at, 8)
    requires block.size == (if list.isObject then NODE_SIZE else KEYLESS_NODE_SIZE)
    ensures Fits(GrowTheTail(nodes, list, value, list.key).0, blocks + [block])
  {
  }

  // The buffer from p on still holds the text.
  ghost predicate Unread(bytes: string, text: string, p: nat) {
    |bytes| == |text| + 1 && forall i :: p <= i < |bytes| ==> bytes[i] == At(text, i)
  }

  // ---- Scanning ----

  method SkipSpaces(buf: array<char>, p: nat, ghost text: string) returns (q: nat)
    requires p <= |text| && Unread(buf[..], text, p)
    ensures q == SkipSpace(text, p)
  {
    q := p;
    while buf[q] != NUL && IsSpace(buf[q])
      invariant p <= q <= |text| && SkipSpace(text, p) == SkipSpace(text, q)
      decreases |text| - q
    {
      assert buf[q] == buf[..][q];
      q := q + 1;
    }
    assert buf[q] == buf[..][q];
  }

  method ConsumeDigits(buf: array<char>, p: nat, ghost text: string) returns (q: nat)
    requires p <= |text| && Unread(buf[..], text, p)
    ensures q == SkipDec(text, p)
  {
    q := p;
    while IsDec(buf[q])
      invariant p <= q <= |text| && SkipDec(text, p) == SkipDec(text, q)
      decreases |text| - q
    {
      assert buf[q] == buf[..][q];
      q := q + 1;
    }
    assert buf[q] == buf[..][q];
  }

  method ConsumeSign(buf: array<char>, p: nat, ghost text: string) returns (q: nat)
    requires p <= |text| && Unread(buf[..], text, p)
    ensures q == SkipSign(text, p)
  {
    assert buf[p] == buf[..][p];
    q := if IsSign(buf[p]) then p + 1 else p;
  }

  method ConsumeFloat(buf: array<char>, p: nat, ghost text: string) returns (q: nat)
    requires p <= |text| && Unread(buf[..], text, p)
    ensures q == NumberEnd(text, p)
  {
    q := ConsumeSign(buf, p, text);
    q := ConsumeDigits(buf, q, text);
    assert buf[q] == buf[..][q];
    if buf[q] == '.' {
      q := ConsumeDigits(buf, q + 1, text);
    }
    assert buf[q] == buf[..][q];
    if buf[q] == 'e' || buf[q] == 'E' {
      q := ConsumeSign(buf, q + 1, text);
      q := ConsumeDigits(buf, q, text);
    }
  }

  // The loop over "rue", "alse" and "ull".
  method MatchWord(buf: array<char>, p: nat, rest: string, ghost text: string) returns (ok: bool)
    requires p < |text| && Unread(buf[..], text, p) && NUL !in rest
    ensures ok <==> StartsAt(text, p + 1, rest) && IsDelim(At(text, p + 1 + |rest|))
  {
    assert forall i :: p <= i <= |text| ==> buf[i] == At(text, i) by {
      assert forall i :: p <= i <= |text| ==> buf[i] == buf[..][i];
    }
    var i := 0;
    while i < |rest|
      invariant i <= |rest| && p + 1 + i <= |text| && StartsAt(text, p + 1, rest[..i])
    {
      if rest[i] != buf[p + 1 + i] {
        assert rest[i] != At(text, p + 1 + i);
        return false;
      }
      assert rest[i] in rest;
      i := i + 1;
    }
    assert rest[..i] == rest;
    return IsDelim(buf[p + 1 + |rest|]);
  }

  // ---- Strings, unescaped in place ----

  lemma PrependTwice(a: string, b: string, l: Literal)
    ensures Prepend(a, Prepend(b, l)) == Prepend(a + b, l)
  {
    if !l.Broken? {
      assert a + (b + l.s) == (a + b) + l.s;
    }
  }

  // s stands in bytes from p on.
  ghost predicate Holds(bytes: string, p: nat, s: string) {
    p + |s| <= |bytes| && forall i :: 0 <= i < |s| ==> s[i] == bytes[p + i]
  }

  lemma HoldsMore(before: string, after: string, p: nat, s: string, t: string)
    requires Holds(before, p, s) && |after| == |before| && forall i :: p <= i < p + |s| ==> after[i] == before[i]
    requires Holds(after, p + |s|, t)
    ensures Holds(after, p, s + t)
  {
  }

  // The four digits of \u, of which the first stands behind str.
  method ReadHex(buf: array<char>, u: nat, ghost text: string) returns (ok: bool, str: nat, code: nat)
    requires u < |text| && Unread(buf[..], text, u) && At(text, u) != NUL
    ensures str <= |text|
    ensures match HexAt(text, u + 1, 4)
      case NoHex(at) => !ok && str == at
      case Code(v) => ok && str == u + 4 < |text| && code == v
  {
    code, str := 0, u;
    var i := 0;
    while i < 4
      invariant i <= 4 && str == u + i < |text| && HexAt(text, u + 1, i) == Code(code)
    {
      str := str + 1;
      assert buf[str] == buf[..][str] == At(text, str);
      assert HexAt(text, u + 1, i + 1) == if IsHex(buf[str]) then Code(code * 16 + CharToInt(buf[str])) else NoHex(str);
      if !IsHex(buf[str]) {
        HexStays(text, u + 1, i + 1, 4);
        return false, str, code;
      }
      code := code * 16 + CharToInt(buf[str]);
      i := i + 1;
    }
    return true, str, code;
  }

  lemma {:induction false} HexStays(text: string, p: nat, m: nat, n: nat)
    requires m <= n && HexAt(text, p, m).NoHex?
    ensures HexAt(text, p, n) == HexAt(text, p, m)
    decreases n
  {
    if m < n {
      HexStays(text, p, m, n - 1);
    }
  }

  // Writes the bytes of \uXXXX from s on; the last of them is at r.
  method WriteUtf8(buf: array<char>, s: nat, code: nat) returns (r: nat)
    requires code < 0x10000 && s + 3 <= buf.Length
    modifies buf
    ensures r == s + |Utf8(code)| - 1 && Holds(buf[..], s, Utf8(code))
    ensures forall i :: 0 <= i < buf.Length && !(s <= i <= r) ==> buf[i] == old(buf[i])
  {
    r := s;
    if code < 0x80 {
      buf[r] := code as char;
    } else if code < 0x800 {
      buf[r] := (0xC0 + code / 64) as char;
      r := r + 1;
      buf[r] := (0x80 + code % 64) as char;
    } else {
      buf[r] := (0xE0 + code / 4096) as char;
      r := r + 1;
      buf[r] := (0x80 + code / 64 % 64) as char;
      r := r + 1;
      buf[r] := (0x80 + code % 64) as char;
    }
  }

  // One escape sequence: str is at its backslash, s at the place of the character. Both stay at the last place used.
  method Unescape(buf: array<char>, s0: nat, str0: nat, ghost text: string)
    returns (ok: bool, s: nat, str: nat, ghost out: string)
    requires s0 <= str0 < |text| && Unread(buf[..], text, s0 + 1) && At(text, str0) == '\\'
    modifies buf
    ensures forall i :: 0 <= i < s0 ==> buf.Length > i && buf[i] == old(buf[i])
    ensures !ok ==> LexString(text, str0) == Broken(str) && str <= |text|
    ensures ok ==>
      && s0 <= s <= str && str0 < str < |text| && out != "" && s + 1 == s0 + |out| && Holds(buf[..], s0, out)
      && LexString(text, str0) == Prepend(out, LexString(text, str + 1))
      && Unread(buf[..], text, s + 1)
  {
    assert forall i :: s0 + 1 <= i <= |text| ==> buf[i] == At(text, i) by {
      assert forall i :: s0 + 1 <= i <= |text| ==> buf[i] == buf[..][i];
    }
    s, str, out := s0, str0 + 1, "";
    var c := buf[str];
    assert c == At(text, str);
    if c == 'u' {
      var code;
      ok, str, code := ReadHex(buf, str, text);
      if ok {
        s := WriteUtf8(buf, s, code);
        out := Utf8(code);
      }
      return;
    }
    ok := true;
    match c {
      case '\\' =>
      case '"' =>
      case '/' =>
      case 'b' => c := '\U{8}';
      case 'f' => c := '\U{c}';
      case 'n' => c := '\n';
      case 'r' => c := '\r';
      case 't' => c := '\t';
      case _ => ok := false;
    }
    if ok {
      assert ShortEscape(At(text, str)) == Some(c) && str < |text|;
      buf[s] := c;
      out := [c];
    }
  }

  // One character or escape that is no quote; str is at it, s at its place. Both stay at the last place used.
  method StringCharacter(buf: array<char>, s0: nat, str0: nat, ghost text: string)
    returns (ok: bool, s: nat, str: nat, ghost out: string)
    requires s0 <= str0 < |text| && Unread(buf[..], text, s0) && At(text, str0) != NUL && At(text, str0) != '"'
    modifies buf
    ensures forall i :: 0 <= i < s0 ==> buf.Length > i && buf[i] == old(buf[i])
    ensures !ok ==> LexString(text, str0) == Broken(str) && str <= |text|
    ensures ok ==>
      && s0 <= s <= str && str0 <= str < |text| && out != "" && s + 1 == s0 + |out| && Holds(buf[..], s0, out)
      && LexString(text, str0) == Prepend(out, LexString(text, str + 1))
      && Unread(buf[..], text, s + 1)
  {
    assert buf[str0] == buf[..][str0];
    var c := buf[str0];
    buf[s0] := c;
    if c == '\\' {
      ok, s, str, out := Unescape(buf, s0, str0, text);
    } else {
      ok, s, str, out := true, s0, str0, [c];
    }
  }

  // What ParseString has to leave behind for the literal from start on.
  ghost predicate Lexed(text: string, start: nat, bytes: string, ok: bool, str: nat)
    requires 0 < start <= |text|
  {
    match LexQuoted(text, start - 1)
    case Wrong(status, at) => !ok && str == at && status == BadString
    case Scalar(v, next) => ok && str == next && Unread(bytes, text, str) && v.String? && StringAt(bytes, start, v.text, str)
  }

  // done is what the literal from start up to str stands for; it is written, and what is behind it is still the text.
  ghost predicate Written(text: string, start: nat, bytes: string, done: string, str: nat) {
    && 0 < start && start + |done| <= str <= |text|
    && Unread(bytes, text, start + |done|) && Holds(bytes, start, done)
    && forall l :: LexesTo(text, str, l) ==> LexesTo(text, start, Prepend(done, l))
  }

  ghost predicate LexesTo(text: string, p: nat, l: Literal) {
    p <= |text| && LexString(text, p) == l
  }

  lemma WholeLiteral(text: string, start: nat, bytes: string, done: string, str: nat)
    requires Written(text, start, bytes, done, str)
    ensures start <= str <= |text| && LexString(text, start) == Prepend(done, LexString(text, str))
  {
    assert LexesTo(text, str, LexString(text, str));
  }

  lemma MoreWritten(text: string, start: nat, before: string, after: string, done: string, out: string, str: nat,
                    next: nat)
    requires Written(text, start, before, done, str) && |after| == |before| && start + |done + out| <= next <= |text|
    requires forall i :: 0 <= i < start + |done| ==> after[i] == before[i]
    requires Holds(after, start + |done|, out) && Unread(after, text, start + |done| + |out|)
    requires LexString(text, str) == Prepend(out, LexString(text, next))
    ensures Written(text, start, after, done + out, next)
  {
    HoldsMore(before, after, start, done, out);
    WholeLiteral(text, start, before, done, str);
    PrependTwice(done, out, LexString(text, next));
  }

  lemma QuoteEnds(text: string, start: nat, before: string, bytes: string, done: string, str: nat)
    requires Written(text, start, before, done, str) && At(text, str) == '"'
    requires bytes == before[start + |done| := NUL]
    ensures Lexed(text, start, bytes, IsDelim(bytes[str + 1]), str + 1)
  {
    WholeLiteral(text, start, before, done, str);
    assert LexString(text, start) == Closed(done, str + 1);
    assert bytes[str + 1] == At(text, str + 1);
  }

  lemma EscapeFails(text: string, start: nat, before: string, bytes: string, done: string, str: nat, at: nat)
    requires Written(text, start, before, done, str) && LexString(text, str) == Broken(at)
    ensures Lexed(text, start, bytes, false, at)
  {
    WholeLiteral(text, start, before, done, str);
  }

  // The characters between the two cursors become part of the string.
  lemma TextEnds(text: string, start: nat, bytes: string, done: string, str: nat)
    requires Written(text, start, bytes, done, str) && At(text, str) == NUL
    ensures Lexed(text, start, bytes, IsDelim(bytes[str]), str)
  {
    WholeLiteral(text, start, bytes, done, str);
    assert LexString(text, start) == Open(done, str);
    assert bytes[str] == At(text, str);
    HoldsMore(bytes, bytes, start, done, text[start + |done|..str]);
  }

  // From the quote on. The write cursor s stays at or before the read cursor str.
  method ParseString(buf: array<char>, start: nat, ghost text: string) returns (ok: bool, str: nat)
    requires 0 < start <= |text| && Unread(buf[..], text, start)
    modifies buf
    ensures forall i :: 0 <= i < start ==> buf.Length > i && buf[i] == old(buf[i])
    ensures Lexed(text, start, buf[..], ok, str)
  {
    var s := start;
    str := start;
    ghost var done := "";
    while buf[str] != NUL
      invariant s == start + |done| && Written(text, start, buf[..], done, str)
      invariant forall i :: 0 <= i < start ==> buf[i] == old(buf[i])
      decreases |text| - str
    {
      ghost var before := buf[..];
      assert buf[str] == before[str] == At(text, str);
      if buf[str] == '"' {
        buf[s] := NUL;
        QuoteEnds(text, start, before, buf[..], done, str);
        return IsDelim(buf[str + 1]), str + 1;
      }
      var s', str';
      ghost var out;
      ok, s', str', out := StringCharacter(buf, s, str, text);
      if !ok {
        EscapeFails(text, start, before, buf[..], done, str, str');
        return false, str';
      }
      MoreWritten(text, start, before, buf[..], done, out, str, str' + 1);
      done := done + out;
      s, str := s' + 1, str' + 1;
    }
    assert buf[str] == buf[..][str] == At(text, str);
    TextEnds(text, start, buf[..], done, str);
    return IsDelim(buf[str]), str;
  }

  // ---- Scalars ----

  lemma StillUnread(bytes: string, text: string, p: nat, q: nat)
    requires Unread(bytes, text, p) && p <= q
    ensures Unread(bytes, text, q)
  {
  }

  // What is left of the buffer and of value once the scalar at p is read.
  ghost predicate ScalarRead(text: string, p: nat, h: Heap, status: Option<Status>, end: nat, o: JsonValue)
    requires p < |text| && StartsScalar(text[p])
  {
    match LexScalar(text, p)
    case Wrong(s, at) => status == Some(s) && s != BreakingBad && end == at
    case Scalar(j, next) => status.None? && end == next == h.limit && Unread(h.bytes, text, end) && Reads(h, o, j)
  }

  lemma NumberRead(text: string, p: nat, h: Heap)
    requires p < |text| && StartsScalar(text[p]) && (text[p] == '-' || IsDec(text[p])) && Unread(h.bytes, text, p)
    requires h.limit == NumberEnd(text, p) && LexNumber(text, p) == Scalar(Number(text[p..h.limit]), h.limit)
    ensures ScalarRead(text, p, h, None, h.limit, NumberValue(p))
  {
    NumberEndAgrees(text, h.bytes, p);
    StillUnread(h.bytes, text, p, h.limit);
  }

  method ParseNumber(buf: array<char>, p: nat, ghost text: string, ghost nodes: seq<JsonNode>,
                     ghost owner: seq<Option<nat>>)
    returns (status: Option<Status>, str: nat, o: JsonValue)
    requires p < |text| && Unread(buf[..], text, p) && (text[p] == '-' || IsDec(text[p]))
    ensures ScalarRead(text, p, Heap(buf[..], str, nodes, owner), status, str, o)
  {
    assert buf[p] == buf[..][p] && buf[p + 1] == buf[..][p + 1];
    if buf[p] == '-' && !IsDec(buf[p + 1]) && buf[p + 1] != '.' {
      return Some(BadNumber), p + 1, NullValue;
    }
    str := ConsumeFloat(buf, p, text);
    assert buf[str] == buf[..][str];
    if !IsDelim(buf[str]) {
      return Some(BadNumber), str, NullValue;
    }
    NumberRead(text, p, Heap(buf[..], str, nodes, owner));
    return None, str, NumberValue(p);
  }

  method ParseWord(buf: array<char>, p: nat, rest: string, v: JsonValue, ghost j: Json, ghost text: string,
                   ghost nodes: seq<JsonNode>, ghost owner: seq<Option<nat>>)
    returns (status: Option<Status>, str: nat, o: JsonValue)
    requires p < |text| && StartsScalar(text[p]) && Unread(buf[..], text, p) && NUL !in rest
    requires LexScalar(text, p) == LexWord(text, p, rest, j) && ((j == Null && v == NullValue) || (j.Bool? && v == BoolValue(j.b)))
    ensures ScalarRead(text, p, Heap(buf[..], str, nodes, owner), status, str, o)
  {
    var ok := MatchWord(buf, p, rest, text);
    if !ok {
      return Some(BadIdentifier), p, NullValue;
    }
    StillUnread(buf[..], text, p, p + 1 + |rest|);
    return None, p + 1 + |rest|, v;
  }

  method ParseScalar(buf: array<char>, p: nat, ghost text: string, ghost nodes: seq<JsonNode>,
                     ghost owner: seq<Option<nat>>)
    returns (status: Option<Status>, str: nat, o: JsonValue)
    requires p < |text| && StartsScalar(text[p]) && Unread(buf[..], text, p)
    modifies buf
    ensures forall i :: 0 <= i <= p ==> buf.Length > i && buf[i] == old(buf[i])
    ensures ScalarRead(text, p, Heap(buf[..], str, nodes, owner), status, str, o)
  {
    assert buf[p] == buf[..][p] == text[p];
    match buf[p]
    case '"' =>
      var ok;
      StillUnread(buf[..], text, p, p + 1);
      ok, str := ParseString(buf, p + 1, text);
      status := if ok then None else Some(BadString);
      o := StringValue(p + 1);
    case 't' => status, str, o := ParseWord(buf, p, "rue", BoolValue(true), Bool(true), text, nodes, owner);
    case 'f' => status, str, o := ParseWord(buf, p, "alse", BoolValue(false), Bool(false), text, nodes, owner);
    case 'n' => status, str, o := ParseWord(buf, p, "ull", NullValue, Null, text, nodes, owner);
    case _ => status, str, o := ParseNumber(buf, p, text, nodes, owner);
  }

  // ---- The loop ----

  predicate Structural(c: char) {
    c == '[' || c == '{' || c == ':' || c == ','
  }

  // From a on, the parser comes to goal and to nothing else.
  ghost predicate Leads(text: string, a: Progress, goal: Outcome) {
    forall r :: Ends(text, a, r) <==> r == goal
  }

  lemma Stops(text: string, a: Progress, goal: Outcome)
    requires Leads(text, a, goal)
    ensures a.Stop? ==> a.outcome == goal
  {
    assert Ends(text, a, goal);
  }

  lemma Steps(text: string, pos: nat, stack: seq<Frame>, separator: bool, goal: Outcome)
    requires pos <= |text| && (stack == [] ==> separator) && Leads(text, More(pos, stack, separator), goal)
    ensures Leads(text, Step(text, pos, stack, separator), goal)
    ensures Step(text, pos, stack, separator).Stop? ==> Step(text, pos, stack, separator).outcome == goal
  {
    assert Ends(text, More(pos, stack, separator), goal);
  }

  ghost predicate LastIs(text: string, pos: nat, last: nat, r: nat) {
    pos <= |text| && LastToken(text, pos, last) == r
  }

  // With last as the start of the token before pos, tail is the start of the last one.
  ghost predicate Tracks(text: string, pos: nat, last: nat, tail: nat) {
    forall r :: LastIs(text, pos, last, r) <==> r == tail
  }

  lemma TrackBegins(text: string)
    ensures Tracks(text, 0, 0, LastToken(text, 0, 0))
  {
  }

  lemma TrackEnds(text: string, pos: nat, last: nat, tail: nat)
    requires Tracks(text, pos, last, tail) && At(text, pos) == NUL
    ensures last == tail
  {
    assert LastIs(text, pos, last, tail);
  }

  lemma TrackGoesOn(text: string, pos: nat, last: nat, tail: nat, p: nat, next: nat)
    requires Tracks(text, pos, last, tail) && At(text, pos) != NUL && p == SkipSpace(text, pos)
    requires p < |text| && text[p] != NUL && next == TokenEnd(text, p)
    ensures Tracks(text, next, p, tail)
  {
    assert LastIs(text, pos, last, tail);
  }

  lemma CharacterPassed(text: string, pos: nat, last: nat, tail: nat, p: nat)
    requires Tracks(text, pos, last, tail) && At(text, pos) != NUL && p == SkipSpace(text, pos)
    requires p < |text| && text[p] != NUL && !StartsScalar(text[p])
    ensures Tracks(text, p + 1, p, tail)
  {
    TrackGoesOn(text, pos, last, tail, p, p + 1);
  }

  lemma ScalarPassed(text: string, pos: nat, last: nat, tail: nat, p: nat, j: Json, next: nat)
    requires Tracks(text, pos, last, tail) && At(text, pos) != NUL && p == SkipSpace(text, pos)
    requires p < |text| && StartsScalar(text[p]) && LexScalar(text, p) == Scalar(j, next)
    ensures Tracks(text, next, p, tail)
  {
    TrackGoesOn(text, pos, last, tail, p, next);
  }

  // Between two rounds: goal is what parsing the whole text comes to.
  ghost predicate Between(text: string, h: Heap, lists: seq<JsonList>, frames: seq<Frame>, ids: seq<seq<nat>>,
                          separator: bool, goal: Outcome)
  {
    && Unread(h.bytes, text, h.limit) && StackReads(h, lists, frames, ids)
    && h.limit <= |text| && (frames == [] ==> separator) && Leads(text, More(h.limit, frames, separator), goal)
  }

  // Within a round, once a value is complete that started at p.
  ghost predicate Completed(text: string, h: Heap, lists: seq<JsonList>, frames: seq<Frame>, ids: seq<seq<nat>>,
                            o: JsonValue, j: Json, p: nat, goal: Outcome)
  {
    && Unread(h.bytes, text, h.limit) && h.limit <= |text| && StackReads(h, lists, frames, ids) && Reads(h, o, j)
    && Leads(text, Complete(j, p, h.limit, frames), goal)
  }

  lemma Moves(h: Heap, g: Heap, lists: seq<JsonList>, frames: seq<Frame>, ids: seq<seq<nat>>)
    requires StackReads(h, lists, frames, ids) && g.nodes == h.nodes && g.owner == h.owner
    requires |g.bytes| == |h.bytes| && h.limit <= g.limit < |g.bytes|
    requires forall i :: 0 <= i <= h.limit ==> g.bytes[i] == h.bytes[i]
    ensures StackReads(g, lists, frames, ids)
  {
    StackKept(h, g, lists, frames, ids);
  }

  lemma OpeningStep(text: string, pos: nat, frames: seq<Frame>, separator: bool, p: nat, isObject: bool)
    requires pos <= |text| && (frames == [] ==> separator) && p == SkipSpace(text, pos) && At(text, pos) != NUL
    requires At(text, p) == (if isObject then '{' else '[')
    ensures p < |text|
    ensures Step(text, pos, frames, separator)
         == if |frames| == JSON_STACK_SIZE then Stop(Failed(StackOverflow, p))
            else More(p + 1, frames + [Frame(isObject, None, [])], separator)
  {
  }

  lemma OpeningLeads(text: string, pos: nat, frames: seq<Frame>, separator: bool, goal: Outcome, p: nat, isObject: bool)
    requires pos <= |text| && (frames == [] ==> separator) && Leads(text, More(pos, frames, separator), goal)
    requires p == SkipSpace(text, pos) && At(text, pos) != NUL && At(text, p) == (if isObject then '{' else '[')
    ensures p < |text|
    ensures |frames| == JSON_STACK_SIZE ==> goal == Failed(StackOverflow, p)
    ensures |frames| != JSON_STACK_SIZE ==> Leads(text, More(p + 1, frames + [Frame(isObject, None, [])], separator), goal)
  {
    OpeningStep(text, pos, frames, separator, p, isObject);
    Steps(text, pos, frames, separator, goal);
  }

  lemma Pushed(text: string, h: Heap, lists: seq<JsonList>, frames: seq<Frame>, ids: seq<seq<nat>>, separator: bool,
               goal: Outcome, p: nat, isObject: bool)
    requires Between(text, h, lists, frames, ids, separator, goal) && At(text, h.limit) != NUL
    requires p == SkipSpace(text, h.limit) && At(text, p) == (if isObject then '{' else '[')
    ensures p < |text|
    ensures |frames| == JSON_STACK_SIZE ==> goal == Failed(StackOverflow, p)
    ensures |frames| != JSON_STACK_SIZE ==>
      Between(text, h.(limit := p + 1), lists + [JsonList(isObject, 0, 0)], frames + [Frame(isObject, None, [])], ids + [[]],
              separator, goal)
  {
    OpeningLeads(text, h.limit, frames, separator, goal, p, isObject);
    Moves(h, h.(limit := p + 1), lists, frames, ids);
    Opens(h.(limit := p + 1), lists, frames, ids, isObject);
  }

  lemma Starts(text: string, h: Heap)
    requires Unread(h.bytes, text, 0) && h.limit == 0 && |h.owner| == |h.nodes| > 0
    ensures Between(text, h, [], [], [], true, Parse(text))
  {
  }

  // The text is over, or what stands at p is no token.
  lemma Refused(text: string, h: Heap, lists: seq<JsonList>, frames: seq<Frame>, ids: seq<seq<nat>>, separator: bool,
                goal: Outcome, p: nat)
    requires Between(text, h, lists, frames, ids, separator, goal)
    requires p == SkipSpace(text, h.limit)
    requires !StartsScalar(At(text, p)) && !Structural(At(text, p)) && At(text, p) != ']' && At(text, p) != '}'
    ensures At(text, h.limit) == NUL ==> goal == Failed(BreakingBad, h.limit)
    ensures At(text, h.limit) != NUL && At(text, p) == NUL ==> goal == Failed(Overrun, p)
    ensures At(text, h.limit) != NUL && At(text, p) != NUL ==> goal == Failed(UnexpectedCharacter, p)
  {
    Steps(text, h.limit, frames, separator, goal);
  }

  // A colon or a comma.
  lemma Separated(text: string, h: Heap, lists: seq<JsonList>, frames: seq<Frame>, ids: seq<seq<nat>>,
                  separator: bool, goal: Outcome, p: nat)
    requires Between(text, h, lists, frames, ids, separator, goal) && At(text, h.limit) != NUL
    requires p == SkipSpace(text, h.limit) && (At(text, p) == ':' || At(text, p) == ',')
    ensures p < |text| && (!separator ==> lists != [])
    ensures if separator || (lists[|lists| - 1].key == 0) == (At(text, p) == ':')
      then goal == Failed(UnexpectedCharacter, p)
      else Between(text, h.(limit := p + 1), lists, frames, ids, true, goal)
  {
    SignLeads(text, h.limit, frames, separator, goal, p);
    if !separator {
      assert ListReads(h, |frames| - 1, lists[|frames| - 1], frames[|frames| - 1], ids[|frames| - 1]);
      Moves(h, h.(limit := p + 1), lists, frames, ids);
    }
  }

  lemma SignLeads(text: string, pos: nat, frames: seq<Frame>, separator: bool, goal: Outcome, p: nat)
    requires pos <= |text| && (frames == [] ==> separator) && Leads(text, More(pos, frames, separator), goal)
    requires p == SkipSpace(text, pos) && At(text, pos) != NUL && (At(text, p) == ':' || At(text, p) == ',')
    ensures if separator || frames[|frames| - 1].key.None? == (At(text, p) == ':')
      then goal == Failed(UnexpectedCharacter, p)
      else p < |text| && Leads(text, More(p + 1, frames, true), goal)
  {
    Steps(text, pos, frames, separator, goal);
  }

  // The round for a closing bracket, by the definition of Step.
  function AtClosing(frames: seq<Frame>, p: nat, isObject: bool): Progress {
    if frames == [] then Stop(Failed(StackUnderflow, p))
    else if frames[|frames| - 1].isObject != isObject then Stop(Failed(MismatchBracket, p))
    else Complete(List(isObject, frames[|frames| - 1].items), p, p + 1, frames[..|frames| - 1])
  }

  lemma ClosingStep(text: string, pos: nat, frames: seq<Frame>, separator: bool, p: nat, isObject: bool)
    requires pos <= |text| && (frames == [] ==> separator)
    requires p == SkipSpace(text, pos) && At(text, pos) != NUL && At(text, p) == (if isObject then '}' else ']')
    ensures Step(text, pos, frames, separator) == AtClosing(frames, p, isObject)
  {
  }

  lemma ClosingLeads(text: string, pos: nat, frames: seq<Frame>, separator: bool, goal: Outcome, p: nat, isObject: bool)
    requires pos <= |text| && (frames == [] ==> separator) && Leads(text, More(pos, frames, separator), goal)
    requires p == SkipSpace(text, pos) && At(text, pos) != NUL && At(text, p) == (if isObject then '}' else ']')
    ensures Leads(text, AtClosing(frames, p, isObject), goal)
    ensures AtClosing(frames, p, isObject).Stop? ==> goal == AtClosing(frames, p, isObject).outcome
  {
    ClosingStep(text, pos, frames, separator, p, isObject);
    Steps(text, pos, frames, separator, goal);
  }

  lemma NotPopped(text: string, h: Heap, lists: seq<JsonList>, frames: seq<Frame>, ids: seq<seq<nat>>,
                  separator: bool, goal: Outcome, p: nat, isObject: bool)
    requires Between(text, h, lists, frames, ids, separator, goal) && At(text, h.limit) != NUL
    requires p == SkipSpace(text, h.limit) && At(text, p) == (if isObject then '}' else ']')
    ensures p < |text| && |lists| == |frames| == |ids|
    ensures frames == [] ==> goal == Failed(StackUnderflow, p)
    ensures frames != [] ==> lists[|lists| - 1].isObject == frames[|frames| - 1].isObject
    ensures frames != [] && lists[|lists| - 1].isObject != isObject ==> goal == Failed(MismatchBracket, p)
  {
    ClosingLeads(text, h.limit, frames, separator, goal, p, isObject);
    if frames != [] {
      var n := |frames| - 1;
      assert ListReads(h, n, lists[n], frames[n], ids[n]);
    }
  }

  lemma ClosesLeads(text: string, pos: nat, frames: seq<Frame>, separator: bool, goal: Outcome, p: nat, isObject: bool)
    requires pos <= |text| && frames != [] && Leads(text, More(pos, frames, separator), goal)
    requires p == SkipSpace(text, pos) && At(text, pos) != NUL && At(text, p) == (if isObject then '}' else ']')
    requires frames[|frames| - 1].isObject == isObject
    ensures var n := |frames| - 1;
      Leads(text, Complete(List(isObject, frames[n].items), p, p + 1, frames[..n]), goal)
  {
    ClosingLeads(text, pos, frames, separator, goal, p, isObject);
  }

  lemma Popped(text: string, h: Heap, lists: seq<JsonList>, frames: seq<Frame>, ids: seq<seq<nat>>, separator: bool,
               goal: Outcome, p: nat, isObject: bool)
    requires Between(text, h, lists, frames, ids, separator, goal) && At(text, h.limit) != NUL
    requires p == SkipSpace(text, h.limit) && At(text, p) == (if isObject then '}' else ']') && p < |text|
    requires frames != [] && frames[|frames| - 1].isObject == isObject
    ensures |lists| == |frames| == |ids| && lists[|lists| - 1].tail < |h.nodes|
    ensures var n := |frames| - 1;
      var (nodes', value) := CutTheHead(h.nodes, lists[n]);
      var g := h.(limit := p + 1, nodes := nodes', owner := Freed(h.owner, n));
      Completed(text, g, lists[..n], frames[..n], ids[..n], value, List(isObject, frames[n].items), p, goal)
  {
    StillUnread(h.bytes, text, h.limit, p + 1);
    ClosesLeads(text, h.limit, frames, separator, goal, p, isObject);
    ShutsAt(h, lists, frames, ids, p + 1);
  }

  lemma ShutsAt(h: Heap, lists: seq<JsonList>, frames: seq<Frame>, ids: seq<seq<nat>>, limit: nat)
    requires StackReads(h, lists, frames, ids) && frames != [] && h.limit <= limit < |h.bytes|
    ensures var n := |frames| - 1;
      && lists[n].tail < |h.nodes|
      && var (nodes', value) := CutTheHead(h.nodes, lists[n]);
      var g := h.(limit := limit, nodes := nodes', owner := Freed(h.owner, n));
      StackReads(g, lists[..n], frames[..n], ids[..n]) && Reads(g, value, List(frames[n].isObject, frames[n].items))
  {
    Moves(h, h.(limit := limit), lists, frames, ids);
    Shuts(h.(limit := limit), lists, frames, ids);
  }

  lemma Scanned(text: string, h: Heap, lists: seq<JsonList>, frames: seq<Frame>, ids: seq<seq<nat>>, separator: bool,
                goal: Outcome, p: nat, g: Heap, status: Option<Status>, o: JsonValue)
    requires Between(text, h, lists, frames, ids, separator, goal) && At(text, h.limit) != NUL
    requires p == SkipSpace(text, h.limit) && p < |text| && StartsScalar(text[p])
    requires |g.bytes| == |h.bytes| && g.nodes == h.nodes && g.owner == h.owner
    requires forall i :: 0 <= i <= p ==> g.bytes[i] == h.bytes[i]
    requires ScalarRead(text, p, g, status, g.limit, o)
    ensures status.Some? ==> goal == Failed(status.value, g.limit)
    ensures status.None? ==>
      exists j :: LexScalar(text, p) == Scalar(j, g.limit) && Completed(text, g, lists, frames, ids, o, j, p, goal)
  {
    Steps(text, h.limit, frames, separator, goal);
    if status.None? {
      Moves(h, g, lists, frames, ids);
      var j := LexScalar(text, p).value;
      assert Completed(text, g, lists, frames, ids, o, j, p, goal);
    }
  }

  // A complete value is the key of the innermost bracket.
  lemma Keyed(text: string, h: Heap, lists: seq<JsonList>, frames: seq<Frame>, ids: seq<seq<nat>>, o: JsonValue,
              j: Json, p: nat, goal: Outcome)
    requires Completed(text, h, lists, frames, ids, o, j, p, goal) && lists != []
    requires lists[|lists| - 1].isObject && lists[|lists| - 1].key == 0
    ensures !o.StringValue? ==> goal == Failed(UnquotedKey, p)
    ensures o.StringValue? ==> j.String? && |frames| == |lists| && var n := |lists| - 1;
      Between(text, h, lists[..n] + [lists[n].(key := o.at)], frames[..n] + [frames[n].(key := Some(j.text))], ids, false, goal)
  {
    Stops(text, Complete(j, p, h.limit, frames), goal);
    var n := |lists| - 1;
    assert ListReads(h, n, lists[n], frames[n], ids[n]);
    if j.String? {
      KeyNamed(h, lists, frames, ids, o, j.text);
    }
  }

  // A complete value is one more member of the innermost bracket.
  lemma Added(text: string, h: Heap, lists: seq<JsonList>, frames: seq<Frame>, ids: seq<seq<nat>>, o: JsonValue,
              j: Json, p: nat, goal: Outcome)
    requires Completed(text, h, lists, frames, ids, o, j, p, goal) && lists != []
    requires lists[|lists| - 1].isObject ==> lists[|lists| - 1].key != 0
    ensures |frames| == |lists| == |ids| && var n := |lists| - 1;
      && lists[n].tail < |h.nodes|
      && var (nodes', list') := GrowTheTail(h.nodes, lists[n], o, lists[n].key);
      var frame' := frames[n].(key := None, items := frames[n].items + [Member(KeyOf(frames[n]), j)]);
      Between(text, h.(nodes := nodes', owner := h.owner + [Some(n)]), lists[..n] + [list'], frames[..n] + [frame'],
              ids[..n] + [ids[n] + [|h.nodes|]], false, goal)
  {
    Stops(text, Complete(j, p, h.limit, frames), goal);
    var n := |lists| - 1;
    assert ListReads(h, n, lists[n], frames[n], ids[n]);
    Adds(h, lists, frames, ids, o, j);
  }

  // The whole arena, with no bracket open.
  function AllSealed(bytes: string, nodes: seq<JsonNode>): Heap
    requires bytes != ""
  {
    Heap(bytes, |bytes| - 1, nodes, seq(|nodes|, _ => None))
  }

  // What the caller gets: the value read back through the buffer and the nodes is the tree.
  ghost predicate Delivered(goal: Outcome, status: Option<Status>, end: nat, value: JsonValue, bytes: string,
                            nodes: seq<JsonNode>)
    requires bytes != ""
  {
    match goal
    case Parsed(j, next) => status.None? && end == next && Reads(AllSealed(bytes, nodes), value, j)
    case Failed(s, at) => status == Some(s) && (s == BreakingBad || end == at)
  }

  // The nodes of earlier parses.
  ghost predicate Older(nodes: seq<JsonNode>, h: Heap) {
    |nodes| <= |h.nodes| == |h.owner| && forall i :: 0 <= i < |nodes| ==> h.owner[i].None? && h.nodes[i] == nodes[i]
  }

  lemma Returned(text: string, h: Heap, lists: seq<JsonList>, ids: seq<seq<nat>>, o: JsonValue, j: Json, p: nat,
                 goal: Outcome)
    requires Completed(text, h, lists, [], ids, o, j, p, goal)
    ensures Delivered(goal, None, h.limit, o, h.bytes, h.nodes)
  {
    Stops(text, Complete(j, p, h.limit, []), goal);
    ReadsKept(h, AllSealed(h.bytes, h.nodes), o, j);
  }

  // The end of a round: a complete value becomes the key or a member of the innermost bracket.
  method Attach(stack: array<JsonList>, top: nat, o: JsonValue, allocator: NodePool, malloc: Malloc,
                ghost text: string, ghost h: Heap,
                ghost frames: seq<Frame>, ghost ids: seq<seq<nat>>, ghost j: Json, ghost p: nat, ghost goal: Outcome,
                ghost first: seq<JsonNode>)
    returns (ok: bool, ghost frames': seq<Frame>, ghost ids': seq<seq<nat>>, ghost owner': seq<Option<nat>>)
    requires top < stack.Length && h.nodes == allocator.nodes
    requires Completed(text, h, stack[..top + 1], frames, ids, o, j, p, goal) && Older(first, h)
    requires allocator.Placed() && Mallocs(malloc)
    modifies stack, allocator, allocator.zones
    ensures allocator.Placed() && old(allocator.zones.blocks) <= allocator.zones.blocks
    ensures !ok ==> goal == Failed(UnquotedKey, p) && allocator.nodes == old(allocator.nodes)
    ensures ok ==> var g := h.(nodes := allocator.nodes, owner := owner');
      Between(text, g, stack[..top + 1], frames', ids', false, goal) && Older(first, g)
  {
    ghost var lists := stack[..top + 1];
    ok, frames', ids', owner' := true, frames, ids, h.owner;
    if stack[top].isObject && stack[top].key == 0 {
      Keyed(text, h, lists, frames, ids, o, j, p, goal);
      if !o.StringValue? {
        ok := false;
        return;
      }
      stack[top] := stack[top].(key := o.at);
      frames' := frames[..top] + [frames[top].(key := Some(j.text))];
      assert stack[..top + 1] == lists[..top] + [lists[top].(key := o.at)];
    } else {
      Added(text, h, lists, frames, ids, o, j, p, goal);
      frames' := frames[..top] + [frames[top].(key := None, items := frames[top].items + [Member(KeyOf(frames[top]), j)])];
      owner', ids' := h.owner + [Some(top)], ids[..top] + [ids[top] + [|h.nodes|]];
      var grown := allocator.Append(stack[top], o, malloc);
      stack[top] := grown;
      assert stack[..top + 1] == lists[..top] + [grown];
    }
  }

  // The rounds that read an opening bracket, a colon or a comma at p.
  method Structure(stack: array<JsonList>, top: int, separator: bool, c: char, ghost text: string, ghost h: Heap,
                   ghost frames: seq<Frame>, ghost ids: seq<seq<nat>>, ghost p: nat, ghost goal: Outcome)
    returns (status: Option<Status>, top': int, separator': bool, ghost frames': seq<Frame>, ghost ids': seq<seq<nat>>)
    requires -1 <= top < stack.Length == JSON_STACK_SIZE
    requires Between(text, h, stack[..top + 1], frames, ids, separator, goal) && At(text, h.limit) != NUL
    requires p == SkipSpace(text, h.limit) && At(text, p) == c && Structural(c)
    modifies stack
    ensures status.Some? ==> goal == Failed(status.value, p) && status != Some(BreakingBad)
    ensures status.None? ==> p < |text| && -1 <= top' < stack.Length
    ensures status.None? ==> Between(text, h.(limit := p + 1), stack[..top' + 1], frames', ids', separator', goal)
  {
    ghost var lists := stack[..top + 1];
    status, top', separator', frames', ids' := None, top, separator, frames, ids;
    if c == '[' || c == '{' {
      Pushed(text, h, lists, frames, ids, separator, goal, p, c == '{');
      top' := top + 1;
      if top' == JSON_STACK_SIZE {
        return Some(StackOverflow), top', separator', frames', ids';
      }
      stack[top'] := JsonList(c == '{', 0, 0);
      assert stack[..top' + 1] == lists + [JsonList(c == '{', 0, 0)];
      frames', ids' := frames + [Frame(c == '{', None, [])], ids + [[]];
    } else {
      Separated(text, h, lists, frames, ids, separator, goal, p);
      if separator || (stack[top].key == 0) == (c == ':') {
        return Some(UnexpectedCharacter), top', separator', frames', ids';
      }
      separator' := true;
    }
  }

  // The node whose link is cut belongs to the bracket, so that it is none of the earlier ones.
  lemma PoppedOlder(text: string, h: Heap, lists: seq<JsonList>, frames: seq<Frame>, ids: seq<seq<nat>>,
                    separator: bool, goal: Outcome, first: seq<JsonNode>, limit: nat)
    requires Between(text, h, lists, frames, ids, separator, goal) && Older(first, h)
    requires lists != [] && lists[|lists| - 1].tail < |h.nodes|
    ensures var n := |lists| - 1;
      Older(first, h.(limit := limit, nodes := CutTheHead(h.nodes, lists[n]).0, owner := Freed(h.owner, n)))
  {
    var n := |lists| - 1;
    assert ListReads(h, n, lists[n], frames[n], ids[n]);
    assert lists[n].tail != 0 ==> Owned(h, lists[n].tail, n);
  }

  // The rounds that read a closing bracket at p.
  method Close(stack: array<JsonList>, top: int, isObject: bool, allocator: NodePool, ghost text: string,
               ghost h: Heap,
               ghost frames: seq<Frame>, ghost ids: seq<seq<nat>>, ghost separator: bool, ghost p: nat, ghost goal: Outcome,
               ghost first: seq<JsonNode>)
    returns (status: Option<Status>, o: JsonValue, ghost j: Json, ghost owner': seq<Option<nat>>)
    requires -1 <= top < stack.Length && h.nodes == allocator.nodes && Older(first, h)
    requires Between(text, h, stack[..top + 1], frames, ids, separator, goal) && At(text, h.limit) != NUL
    requires p == SkipSpace(text, h.limit) && At(text, p) == (if isObject then '}' else ']')
    requires allocator.Placed()
    modifies allocator
    ensures allocator.Placed()
    ensures status.Some? ==> goal == Failed(status.value, p) && allocator.nodes == old(allocator.nodes)
    ensures status != Some(BreakingBad)
    ensures status.None? ==> 0 <= top < |frames| && top < |ids|
    ensures status.None? ==> var g := h.(limit := p + 1, nodes := allocator.nodes, owner := owner');
      Completed(text, g, stack[..top], frames[..top], ids[..top], o, j, p, goal) && Older(first, g)
  {
    ghost var lists := stack[..top + 1];
    status, o, j, owner' := None, NullValue, Null, h.owner;
    NotPopped(text, h, lists, frames, ids, separator, goal, p, isObject);
    if top == -1 {
      status := Some(StackUnderflow);
    } else if stack[top].isObject != isObject {
      status := Some(MismatchBracket);
    } else {
      Popped(text, h, lists, frames, ids, separator, goal, p, isObject);
      PoppedOlder(text, h, lists, frames, ids, separator, goal, first, p + 1);
      o := allocator.TakeHead(stack[top]);
      j, owner' := List(isObject, frames[top].items), Freed(h.owner, top);
      assert stack[..top] == lists[..top];
    }
  }

  // The rounds that read a scalar at p, up to the point where it is complete.
  method TakeScalar(buf: array<char>, ghost text: string, ghost h: Heap, ghost lists: seq<JsonList>,
                    ghost frames: seq<Frame>, ghost ids: seq<seq<nat>>, ghost separator: bool, p: nat,
                    ghost goal: Outcome, ghost last: nat, ghost tail: nat)
    returns (status: Option<Status>, str: nat, o: JsonValue, ghost j: Json)
    requires h.bytes == buf[..] && Between(text, h, lists, frames, ids, separator, goal) && At(text, h.limit) != NUL
    requires p == SkipSpace(text, h.limit) < |text| && StartsScalar(text[p]) && Tracks(text, h.limit, last, tail)
    modifies buf
    ensures status.Some? ==> goal == Failed(status.value, str) && status != Some(BreakingBad)
    ensures status.None? ==> p < str <= |text| && Tracks(text, str, p, tail)
    ensures status.None? ==>
      Completed(text, Heap(buf[..], str, h.nodes, h.owner), lists, frames, ids, o, j, p, goal)
  {
    StillUnread(buf[..], text, h.limit, p);
    status, str, o := ParseScalar(buf, p, text, h.nodes, h.owner);
    j := Null;
    Scanned(text, h, lists, frames, ids, separator, goal, p, Heap(buf[..], str, h.nodes, h.owner), status, o);
    if status.None? {
      j := LexScalar(text, p).value;
      ScalarPassed(text, h.limit, last, tail, p, j, str);
    }
  }

  // The rounds that read a scalar or a closing bracket at p, up to the point where the value is complete.
  method TakeValue(buf: array<char>, stack: array<JsonList>, top: int, allocator: NodePool, ghost text: string,
                   ghost h: Heap,
                   ghost frames: seq<Frame>, ghost ids: seq<seq<nat>>, ghost separator: bool, p: nat, ghost goal: Outcome,
                   ghost first: seq<JsonNode>, ghost last: nat, ghost tail: nat)
    returns (status: Option<Status>, str: nat, o: JsonValue, top': int, ghost j: Json, ghost frames': seq<Frame>,
             ghost ids': seq<seq<nat>>, ghost owner': seq<Option<nat>>)
    requires -1 <= top < stack.Length && h.bytes == buf[..] && h.nodes == allocator.nodes && Older(first, h)
    requires Between(text, h, stack[..top + 1], frames, ids, separator, goal) && At(text, h.limit) != NUL
    requires p == SkipSpace(text, h.limit) < |text| && !Structural(text[p]) && text[p] != NUL
    requires Tracks(text, h.limit, last, tail)
    requires allocator.Placed()
    modifies buf, allocator
    ensures allocator.Placed()
    ensures status.Some? ==> goal == Failed(status.value, str) && Older(first, Heap(buf[..], str, allocator.nodes, h.owner))
    ensures status.None? ==> -1 <= top' < stack.Length && p < str <= |text| && Tracks(text, str, p, tail)
    ensures status != Some(BreakingBad)
    ensures status.None? ==> var g := Heap(buf[..], str, allocator.nodes, owner');
      Completed(text, g, stack[..top' + 1], frames', ids', o, j, p, goal) && Older(first, g)
  {
    assert buf[p] == buf[..][p] == At(text, p);
    var c := buf[p];
    str, o, top', j, frames', ids', owner' := p, NullValue, top, Null, frames, ids, h.owner;
    if c == ']' || c == '}' {
      status, o, j, owner' := Close(stack, top, c == '}', allocator, text, h, frames, ids, separator, p, goal, first);
      if status.None? {
        frames', ids' := frames[..top], ids[..top];
        top' := top - 1;
        str := p + 1;
        CharacterPassed(text, h.limit, last, tail, p);
      }
    } else if StartsScalar(c) {
      status, str, o, j := TakeScalar(buf, text, h, stack[..top + 1], frames, ids, separator, p, goal, last, tail);
    } else {
      Refused(text, h, stack[..top + 1], frames, ids, separator, goal, p);
      status := Some(UnexpectedCharacter);
    }
  }

  // The rounds that read a scalar or a closing bracket at p. done: the value was the whole text's.
  method ValueRound(buf: array<char>, stack: array<JsonList>, top: int, allocator: NodePool, malloc: Malloc,
                    ghost text: string, ghost h: Heap, ghost frames: seq<Frame>, ghost ids: seq<seq<nat>>, ghost separator: bool, p: nat,
                    ghost goal: Outcome, ghost first: seq<JsonNode>, ghost last: nat, ghost tail: nat)
    returns (status: Option<Status>, done: bool, str: nat, o: JsonValue, top': int, ghost frames': seq<Frame>,
             ghost ids': seq<seq<nat>>, ghost owner': seq<Option<nat>>)
    requires -1 <= top < stack.Length && h.bytes == buf[..] && h.nodes == allocator.nodes && Older(first, h)
    requires Between(text, h, stack[..top + 1], frames, ids, separator, goal) && At(text, h.limit) != NUL
    requires p == SkipSpace(text, h.limit) < |text| && !Structural(text[p]) && text[p] != NUL
    requires Tracks(text, h.limit, last, tail)
    requires allocator.Placed() && Mallocs(malloc)
    modifies buf, stack, allocator, allocator.zones
    ensures allocator.Placed() && old(allocator.zones.blocks) <= allocator.zones.blocks
    ensures buf.Length > 0 && Older(first, Heap(buf[..], str, allocator.nodes, owner'))
    ensures status.Some? ==> goal == Failed(status.value, str)
    ensures status.None? && done ==> Delivered(goal, None, str, o, buf[..], allocator.nodes)
    ensures status.None? && !done ==> -1 <= top' < stack.Length && p < str <= |text| && Tracks(text, str, p, tail)
    ensures status != Some(BreakingBad)
    ensures status.None? && !done ==>
      Between(text, Heap(buf[..], str, allocator.nodes, owner'), stack[..top' + 1], frames', ids', false, goal)
  {
    ghost var j;
    done := false;
    status, str, o, top', j, frames', ids', owner' :=
      TakeValue(buf, stack, top, allocator, text, h, frames, ids, separator, p, goal, first, last, tail);
    if status.Some? {
      owner' := h.owner;
      return;
    }
    ghost var g := Heap(buf[..], str, allocator.nodes, owner');
    if top' == -1 {
      Returned(text, g, stack[..0], ids', o, j, p, goal);
      done := true;
      return;
    }
    var ok;
    ok, frames', ids', owner' := Attach(stack, top', o, allocator, malloc, text, g, frames', ids', j, p, goal, first);
    if !ok {
      owner' := g.owner;
      status, str := Some(UnquotedKey), p;
    }
  }

  method JsonParse(buf: array<char>, allocator: NodePool, malloc: Malloc)
    returns (status: Option<Status>, end: nat, value: JsonValue)
    requires buf.Length > 0 && buf[buf.Length - 1] == NUL && allocator.Placed() && Mallocs(malloc)
    modifies buf, allocator, allocator.zones
    ensures allocator.Placed() && old(allocator.zones.blocks) <= allocator.zones.blocks
    ensures Delivered(Parse(old(buf[..buf.Length - 1])), status, end, value, buf[..], allocator.nodes)
    ensures status == Some(BreakingBad) ==> end == LastToken(old(buf[..buf.Length - 1]), 0, 0)
    ensures |old(allocator.nodes)| <= |allocator.nodes|
    ensures forall i :: 0 <= i < |old(allocator.nodes)| ==> allocator.nodes[i] == old(allocator.nodes)[i]
  {
    ghost var text := buf[..buf.Length - 1];
    ghost var goal := Parse(text);
    ghost var tail := LastToken(text, 0, 0);
    ghost var first := allocator.nodes;
    ghost var frames: seq<Frame> := [];
    ghost var ids: seq<seq<nat>> := [];
    ghost var owner: seq<Option<nat>> := seq(|allocator.nodes|, _ => None);

    var stack := new JsonList[JSON_STACK_SIZE](_ => JsonList(false, 0, 0));
    var top := -1;
    var separator := true;
    var str := 0;
    end, value := 0, NullValue;
    Starts(text, Heap(buf[..], str, allocator.nodes, owner));
    TrackBegins(text);
    while buf[str] != NUL
      invariant -1 <= top < stack.Length == JSON_STACK_SIZE && fresh(stack) && str < buf.Length
      invariant Between(text, Heap(buf[..], str, allocator.nodes, owner), stack[..top + 1], frames, ids, separator, goal)
      invariant Older(first, Heap(buf[..], str, allocator.nodes, owner))
      invariant str <= |text| && Tracks(text, str, end, tail)
      invariant allocator.Placed() && old(allocator.zones.blocks) <= allocator.zones.blocks
      decreases buf.Length - str
    {
      ghost var h := Heap(buf[..], str, allocator.nodes, owner);
      assert buf[str] == buf[..][str] == At(text, str);
      var p := SkipSpaces(buf, str, text);
      assert buf[p] == buf[..][p] == At(text, p);
      ghost var last := end;
      end := p;
      var c := buf[p];
      if c == NUL {
        Refused(text, h, stack[..top + 1], frames, ids, separator, goal, p);
        return Some(Overrun), end, value;
      }
      if Structural(c) {
        status, top, separator, frames, ids := Structure(stack, top, separator, c, text, h, frames, ids, p, goal);
        if status.Some? {
          return status, end, value;
        }
        CharacterPassed(text, str, last, tail, p);
        str := p + 1;
        assert h.(limit := p + 1) == Heap(buf[..], str, allocator.nodes, owner);
        continue;
      }
      var done, o;
      status, done, str, o, top, frames, ids, owner :=
        ValueRound(buf, stack, top, allocator, malloc, text, h, frames, ids, separator, p, goal, first, last, tail);
      if status.Some? {
        return status, str, value;
      }
      if done {
        return None, str, o;
      }
      separator := false;
    }
    assert buf[str] == buf[..][str] == At(text, str);
    Refused(text, Heap(buf[..], str, allocator.nodes, owner), stack[..top + 1], frames, ids, separator, goal, str);
    TrackEnds(text, str, end, tail);
    status := Some(BreakingBad);
  }
}
