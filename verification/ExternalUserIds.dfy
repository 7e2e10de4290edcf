// Lists of user ids in a DNS name: commas escaped by doubling, the list in base 32, the text cut into labels that
// start with an x.
module ExternalUserIds {
  import opened Base32
  import opened Options

  type Id = seq<Byte>

  // ---- The list as one string ----

  function Escaped(id: Id): Id {
    if id == [] then [] else (if id[0] == ',' then [',', ','] else [id[0]]) + Escaped(id[1..])
  }

  function Union(ids: seq<Id>): Id {
    if ids == [] then [] else if |ids| == 1 then Escaped(ids[0]) else Escaped(ids[0]) + [','] + Union(ids[1..])
  }

  // The ids from the comma-separated text, cur being the beginning of the first. None where a single comma is the
  // last character: there the loop steps over the end of the string.
  function Divided(s: Id, cur: Id): Option<seq<Id>>
    decreases |s|
  {
    if s == [] then Some(Pushed(cur, []))
    else if s[0] != ',' then Divided(s[1..], cur + [s[0]])
    else if |s| == 1 then None
    else if s[1] == ',' then Divided(s[2..], cur + [','])
    else
      match Divided(s[2..], [s[1]])
      case None => None
      case Some(ids) => Some(Pushed(cur, ids))
  }

  // Empty ids are dropped.
  function Pushed(cur: Id, ids: seq<Id>): seq<Id> {
    if cur == [] then ids else [cur] + ids
  }

  // ---- Which lists come back ----

  predicate Recoverable(ids: seq<Id>) {
    forall i :: 0 <= i < |ids| ==> ids[i] != [] && (i > 0 ==> ids[i][0] != ',')
  }

  lemma {:induction false} EscapedIsRead(id: Id, rest: Id, cur: Id)
    ensures Divided(Escaped(id) + rest, cur) == Divided(rest, cur + id)
    decreases |id|
  {
    if id == [] {
      assert Escaped(id) + rest == rest && cur + id == cur;
    } else {
      var more := Escaped(id[1..]) + rest;
      assert (cur + [id[0]]) + id[1..] == cur + id;
      EscapedIsRead(id[1..], rest, cur + [id[0]]);
      EscapedFirst(id, rest);
      FirstIsRead(id[0], more, cur);
    }
  }

  lemma EscapedFirst(id: Id, rest: Id)
    requires id != []
    ensures Escaped(id) + rest == (if id[0] == ',' then [',', ','] else [id[0]]) + (Escaped(id[1..]) + rest)
  {
  }

  lemma FirstIsRead(c: Byte, more: Id, cur: Id)
    ensures Divided((if c == ',' then [',', ','] else [c]) + more, cur) == Divided(more, cur + [c])
  {
    assert ([',', ','] + more)[2..] == more;
    assert ([c] + more)[1..] == more;
  }

  // The first id begins with what was already read of it, and no id is empty.
  lemma {:induction false} Blocks(s: Id, cur: Id)
    ensures var r := Divided(s, cur); r.Some? ==>
      (cur != [] ==> r.value != [] && cur <= r.value[0]) && forall i :: 0 <= i < |r.value| ==> r.value[i] != []
    decreases |s|
  {
    if s != [] {
      if s[0] != ',' {
        Blocks(s[1..], cur + [s[0]]);
      } else if |s| > 1 && s[1] == ',' {
        Blocks(s[2..], cur + [',']);
      } else if |s| > 1 {
        Blocks(s[2..], [s[1]]);
      }
    }
  }

  // Behind the first id, of which cur was read before, there is a comma and then the text of the others.
  lemma SecondId(ids: seq<Id>, cur: Id)
    requires |ids| > 1 && ids[1] != [] && cur + ids[0] != []
    ensures var c, rest := ids[1][0], Divided(Union([ids[1][1..]] + ids[2..]), [ids[1][0]]);
      if c == ',' then
        var r := Divided(Union(ids), cur);
        r.Some? ==> (r.value != [] && cur + ids[0] + [','] <= r.value[0])
      else Divided(Union(ids), cur) == if rest.None? then None else Some([cur + ids[0]] + rest.value)
  {
    var first, more := cur + ids[0], Union(ids[1..]);
    assert Escaped(ids[0]) + [','] + more == Escaped(ids[0]) + ([','] + more);
    EscapedIsRead(ids[0], [','] + more, cur);
    UnionStarts(ids[1..]);
    var c := ids[1][0];
    if c == ',' {
      assert ([','] + more)[2..] == more[1..];
      Blocks(more[1..], first + [',']);
    } else {
      assert ([','] + more)[2..] == more[1..];
      assert ids[1..][1..] == ids[2..];
    }
  }

  lemma UnionStarts(ids: seq<Id>)
    requires ids != [] && ids[0] != []
    ensures Union(ids) != [] && Union(ids)[0] == ids[0][0]
    ensures ids[0][0] != ',' ==> Union(ids)[1..] == Union([ids[0][1..]] + ids[1..])
  {
    var shorter := [ids[0][1..]] + ids[1..];
    assert shorter[1..] == ids[1..];
    var rest := Escaped(ids[0][1..]);
    if ids[0][0] != ',' {
      assert Escaped(ids[0]) == [ids[0][0]] + rest;
      if |ids| > 1 {
        AfterFirst(ids[0][0], rest, Union(ids[1..]));
      }
    }
  }

  lemma AfterFirst(c: Byte, rest: Id, more: Id)
    ensures ([c] + rest + [','] + more)[1..] == rest + [','] + more
  {
  }

  // No id after the first starts with a comma.
  predicate Clean(ids: seq<Id>) {
    forall i :: 1 <= i < |ids| ==> ids[i] == [] || ids[i][0] != ','
  }

  lemma SameFirst(first: Id, a: seq<Id>, b: seq<Id>)
    ensures [first] + a == [first] + b <==> a == b
  {
    assert ([first] + a)[1..] == a && ([first] + b)[1..] == b;
  }

  lemma {:induction false} ExactFrom(ids: seq<Id>, cur: Id)
    requires ids != [] && cur + ids[0] != [] && forall i :: 1 <= i < |ids| ==> ids[i] != []
    ensures Divided(Union(ids), cur) == Some([cur + ids[0]] + ids[1..]) <==> Clean(ids)
    decreases |ids|
  {
    if |ids| == 1 {
      EscapedIsRead(ids[0], [], cur);
      assert Escaped(ids[0]) + [] == Escaped(ids[0]);
    } else {
      SecondId(ids, cur);
      if ids[1][0] == ',' {
        assert !Clean(ids);
        assert ([cur + ids[0]] + ids[1..])[0] == cur + ids[0];
      } else {
        var rest := [ids[1][1..]] + ids[2..];
        CleanRest(ids, rest);
        ExactFrom(rest, [ids[1][0]]);
        var d := Divided(Union(rest), [ids[1][0]]);
        if d.Some? {
          SameFirst(cur + ids[0], d.value, ids[1..]);
        }
      }
    }
  }

  lemma CleanRest(ids: seq<Id>, rest: seq<Id>)
    requires |ids| > 1 && ids[1] != [] && ids[1][0] != ',' && rest == [ids[1][1..]] + ids[2..]
    ensures Clean(ids) <==> Clean(rest)
    ensures [[ids[1][0]] + rest[0]] + rest[1..] == ids[1..]
    ensures forall i :: 1 <= i < |rest| ==> rest[i] == ids[i + 1]
  {
    assert [ids[1][0]] + rest[0] == ids[1];
    assert forall i :: 1 <= i < |rest| ==> rest[i] == ids[i + 1];
    assert forall i :: 2 <= i < |ids| ==> ids[i] == rest[i - 1];
  }

  // The list comes back exactly when no id is empty and none after the first starts with a comma.
  lemma DividedUnion(ids: seq<Id>)
    ensures Divided(Union(ids), []) == Some(ids) <==> Recoverable(ids)
  {
    if i :| 0 <= i < |ids| && ids[i] == [] {
      Blocks(Union(ids), []);
    } else if ids != [] {
      ExactFrom(ids, []);
      assert [] + ids[0] == ids[0];
      assert [ids[0]] + ids[1..] == ids;
    }
  }

  // ---- Any text ----

  // What stands between the separating commas of a text, which the first id need not reach.
  predicate Fields(ids: seq<Id>) {
    ids != [] && forall i :: 1 <= i < |ids| ==> ids[i] != [] && ids[i][0] != ','
  }

  // Every text is that of such fields, or ends in one comma more.
  lemma {:induction false} TextOfFields(s: Id) returns (ids: seq<Id>, more: bool)
    ensures Fields(ids) && s == Union(ids) + Ending(more)
    decreases |s|
  {
    if s == [] || s == [','] {
      ids, more := [[]], s != [];
    } else if s[0] != ',' {
      ids, more := TextOfFields(s[1..]);
      Joins(s, [s[0]], Union(ids), Ending(more));
      ids := LongerField(ids, s[0]);
    } else if s[1] == ',' {
      ids, more := TextOfFields(s[2..]);
      Joins(s, [',', ','], Union(ids), Ending(more));
      ids := LongerField(ids, ',');
    } else {
      ids, more := TextOfFields(s[2..]);
      Joins(s, [',', s[1]], Union(ids), Ending(more));
      ids := NextField(ids, s[1]);
    }
  }

  function Ending(more: bool): Id {
    if more then [','] else []
  }

  lemma Joins(s: Id, first: Id, rest: Id, end: Id)
    requires |first| <= |s| && first == s[..|first|] && s[|first|..] == rest + end
    ensures s == first + rest + end
  {
  }

  // The first field with a character put before it.
  lemma LongerField(ids: seq<Id>, c: Byte) returns (r: seq<Id>)
    requires Fields(ids)
    ensures Fields(r) && r == [[c] + ids[0]] + ids[1..]
    ensures Union(r) == (if c == ',' then [',', ','] else [c]) + Union(ids)
  {
    r := [[c] + ids[0]] + ids[1..];
    var one := if c == ',' then [',', ','] else [c];
    assert ([c] + ids[0])[1..] == ids[0];
    assert Escaped(r[0]) == one + Escaped(ids[0]);
    if |ids| > 1 {
      assert r[1..] == ids[1..];
      assert one + Escaped(ids[0]) + [','] + Union(ids[1..]) == one + (Escaped(ids[0]) + [','] + Union(ids[1..]));
    }
  }

  // A field that begins with c, where an empty one stands before it.
  lemma NextField(ids: seq<Id>, c: Byte) returns (r: seq<Id>)
    requires Fields(ids) && c != ','
    ensures Fields(r) && Union(r) == [',', c] + Union(ids)
  {
    var more := LongerField(ids, c);
    r := [[]] + more;
    assert r[1..] == more;
    assert [] + [','] + ([c] + Union(ids)) == [',', c] + Union(ids);
  }

  function NotEmpty(ids: seq<Id>): seq<Id> {
    if ids == [] then [] else if ids[0] == [] then NotEmpty(ids[1..]) else [ids[0]] + NotEmpty(ids[1..])
  }

  lemma SeparatorRead(c: Byte, behind: Id, cur: Id)
    requires c != ','
    ensures var r := Divided(behind, [c]);
      Divided([',', c] + behind, cur) == if r.None? then None else Some(Pushed(cur, r.value))
  {
    assert ([',', c] + behind)[2..] == behind;
  }

  // The text from the second field on, c being its first character.
  lemma FieldsText(ids: seq<Id>, tail: Id)
    requires Fields(ids) && |ids| > 1
    ensures var c, rest := ids[1][0], [ids[1][1..]] + ids[2..];
      && Fields(rest) && [c] + rest[0] == ids[1] && rest[1..] == ids[2..]
      && Union(ids) + tail == Escaped(ids[0]) + ([',', c] + (Union(rest) + tail))
  {
    var c, rest := ids[1][0], [ids[1][1..]] + ids[2..];
    UnionStarts(ids[1..]);
    assert ids[1..][1..] == ids[2..];
    SpliceText(Escaped(ids[0]), Union(ids[1..]), c, Union(rest), tail);
  }

  lemma SpliceText(first: Id, others: Id, c: Byte, rest: Id, tail: Id)
    requires others != [] && others[0] == c && others[1..] == rest
    ensures first + [','] + others + tail == first + ([',', c] + (rest + tail))
  {
    assert others == [c] + rest;
  }

  lemma {:induction false} FieldsRead(ids: seq<Id>, cur: Id, more: bool)
    requires Fields(ids)
    ensures Divided(Union(ids) + Ending(more), cur)
      == if more then None else Some(NotEmpty([cur + ids[0]] + ids[1..]))
    decreases |ids|
  {
    if |ids| == 1 {
      EscapedIsRead(ids[0], Ending(more), cur);
      assert [cur + ids[0]][1..] == [];
    } else {
      var c, rest, tail := ids[1][0], [ids[1][1..]] + ids[2..], Ending(more);
      FieldsText(ids, tail);
      FieldsRead(rest, [c], more);
      SeparatorRead(c, Union(rest) + tail, cur + ids[0]);
      EscapedIsRead(ids[0], [',', c] + (Union(rest) + tail), cur);
      assert [ids[1]] + ids[2..] == ids[1..];
      assert ([cur + ids[0]] + ids[1..])[1..] == ids[1..];
    }
  }

  // Every text has such fields, with or without one comma more at its end.
  lemma TextHasFields(s: Id)
    ensures exists ids, more :: IsText(s, ids, more)
  {
    var ids, more := TextOfFields(s);
    assert IsText(s, ids, more);
  }

  predicate IsText(s: Id, ids: seq<Id>, more: bool) {
    Fields(ids) && s == Union(ids) + Ending(more)
  }

  // And it is read as they are, those dropped that are empty. A text with one comma more runs over.
  lemma TextIsRead(s: Id, ids: seq<Id>, more: bool)
    requires IsText(s, ids, more)
    ensures Divided(s, []) == if more then None else Some(NotEmpty(ids))
  {
    FieldsRead(ids, [], more);
    assert [] + ids[0] == ids[0];
    assert [ids[0]] + ids[1..] == ids;
  }

  // ---- Labels ----

  const MAX_DNS_PART_LEN: nat := 63

  function Labels(s: Id): Id
    decreases |s|
  {
    if |s| < MAX_DNS_PART_LEN then ['x'] + s
    else ['x'] + s[..MAX_DNS_PART_LEN - 1] + ['.'] + Labels(s[MAX_DNS_PART_LEN - 1..])
  }

  // What is left without the dots and the characters behind them.
  function Undivided(s: Id): Id
    decreases |s|
  {
    if s == [] then []
    else if s[0] == '.' then if |s| == 1 then [] else Undivided(s[2..])
    else [s[0]] + Undivided(s[1..])
  }

  lemma {:induction false} UndividedSum(s: Id, rest: Id)
    requires '.' !in s
    ensures Undivided(s + rest) == s + Undivided(rest)
    decreases |s|
  {
    if s == [] {
      assert s + rest == rest;
    } else {
      UndividedSum(s[1..], rest);
      assert (s + rest)[1..] == s[1..] + rest;
    }
  }

  // What is read of any text: up to its first dot as it stands, and on behind the character that follows the dot.
  lemma LabelIsRead(a: Id, c: Byte, rest: Id)
    requires '.' !in a
    ensures Undivided(a) == a && Undivided(a + ['.']) == a
    ensures Undivided(a + ['.', c] + rest) == a + Undivided(rest)
  {
    assert a + [] == a && (['.', c] + rest)[2..] == rest && a + ['.', c] + rest == a + (['.', c] + rest);
    UndividedSum(a, []);
    UndividedSum(a, ['.']);
    UndividedSum(a, ['.', c] + rest);
  }

  lemma FirstDropped(x: Byte, a: Id, b: Id)
    ensures ([x] + a + ['.'] + b)[1..] == a + (['.'] + b)
    ensures b != [] ==> (['.'] + b)[2..] == b[1..]
  {
  }

  lemma {:induction false} UndividedLabels(s: Id)
    requires '.' !in s
    ensures Labels(s) != [] && Undivided(Labels(s)[1..]) == s
    decreases |s|
  {
    if |s| < MAX_DNS_PART_LEN {
      assert Labels(s)[1..] == s + [];
      UndividedSum(s, []);
    } else {
      var a, b := s[..MAX_DNS_PART_LEN - 1], s[MAX_DNS_PART_LEN - 1..];
      UndividedLabels(b);
      FirstDropped('x', a, Labels(b));
      UndividedSum(a, ['.'] + Labels(b));
      assert a + b == s;
    }
  }

  // The labels of a name, by section 2.3.1 of RFC 1035.
  function Parts(s: Id): (r: seq<Id>)
    ensures r != []
  {
    if s == [] then [[]]
    else
      var more := Parts(s[1..]);
      if s[0] == '.' then [[]] + more else [[s[0]] + more[0]] + more[1..]
  }

  lemma {:induction false} PartsSum(a: Id, b: Id)
    requires '.' !in a
    ensures Parts(a + ['.'] + b) == [a] + Parts(b) && Parts(a) == [a]
    decreases |a|
  {
    if a == [] {
      assert a + ['.'] + b == ['.'] + b;
      assert (['.'] + b)[1..] == b;
    } else {
      PartsSum(a[1..], b);
      assert (a + ['.'] + b)[1..] == a[1..] + ['.'] + b;
      assert [a[0]] + a[1..] == a;
    }
  }

  // Every label starts with an x; all but the last have the 63 octets that section 2.3.4 of RFC 1035 allows, and the
  // last has no more.
  predicate FullLabels(parts: seq<Id>) {
    parts != [] && forall i :: 0 <= i < |parts| ==>
      parts[i] != [] && parts[i][0] == 'x' && (if i < |parts| - 1 then |parts[i]| == 63 else |parts[i]| <= 63)
  }

  lemma {:induction false} LabelSizes(s: Id)
    requires '.' !in s
    ensures FullLabels(Parts(Labels(s)))
    decreases |s|
  {
    if |s| < MAX_DNS_PART_LEN {
      PartsSum(['x'] + s, []);
    } else {
      LabelSizes(s[MAX_DNS_PART_LEN - 1..]);
      PartsSum(['x'] + s[..MAX_DNS_PART_LEN - 1], Labels(s[MAX_DNS_PART_LEN - 1..]));
    }
  }

  // ---- All three layers ----

  function DnsEncoded(ids: seq<Id>): Id {
    Labels(Encoded(Union(ids)))
  }

  lemma EncodedHasNoDot(s: Id)
    ensures '.' !in Encoded(s)
  {
    forall c | c in Encoded(s) ensures c != '.' {
      DecodedEncoded(s);
      var i :| 0 <= i < |Encoded(s)| && Encoded(s)[i] == c;
      assert DecodeTable(Encoded(s)[i]) < 32;
    }
  }

  // What dns_decode_external_user_ids makes of src, where bytes is what base32_decode wrote.
  ghost predicate DnsDecodes(src: Id, bytes: Id, ids: Option<seq<Id>>) {
    if src == [] then ids == Some([]) else DecodesTo(Undivided(src[1..]), bytes) && ids == Divided(bytes, [])
  }

  lemma DecodingUndoesEncoding(ids: seq<Id>, bytes: Id, result: Option<seq<Id>>)
    ensures DnsDecodes(DnsEncoded(ids), bytes, result) ==> (result == Some(ids) <==> Recoverable(ids))
  {
    EncodedHasNoDot(Union(ids));
    UndividedLabels(Encoded(Union(ids)));
    DecodedEncoded(Union(ids));
    DividedUnion(ids);
  }

  lemma EncodedLabels(ids: seq<Id>)
    ensures FullLabels(Parts(DnsEncoded(ids)))
  {
    EncodedHasNoDot(Union(ids));
    LabelSizes(Encoded(Union(ids)));
  }

  // ---- The loops ----

  lemma {:induction false} EscapedEnd(s: Id, c: Byte)
    ensures Escaped(s + [c]) == Escaped(s) + (if c == ',' then [',', ','] else [c])
    decreases |s|
  {
    if s == [] {
      assert s + [c] == [c] && [c][1..] == [];
    } else {
      EscapedEnd(s[1..], c);
      assert (s + [c])[1..] == s[1..] + [c];
    }
  }

  method EscapeChar(str: Id) returns (escapedStr: Id)
    ensures escapedStr == Escaped(str)
  {
    escapedStr := [];
    for i := 0 to |str|
      invariant escapedStr == Escaped(str[..i])
    {
      EscapedEnd(str[..i], str[i]);
      assert str[..i + 1] == str[..i] + [str[i]];
      if str[i] == ',' {
        escapedStr := escapedStr + [','];
      }
      escapedStr := escapedStr + [str[i]];
    }
    assert str[..|str|] == str;
  }

  // The labels written so far, before those of the rest.
  function Joined(done: Id, rest: Id): Id {
    if done == [] then rest else done + ['.'] + rest
  }

  method DnsDiv(src: Id) returns (dnsRes: Id)
    ensures dnsRes == Labels(src)
  {
    dnsRes := [];
    var curBlockLen, prev, it := 0, 0, 0;
    while it != |src|
      invariant 0 <= prev <= it <= |src| && curBlockLen == it - prev < MAX_DNS_PART_LEN
      invariant Labels(src) == Joined(dnsRes, Labels(src[prev..]))
      decreases |src| - it
    {
      if curBlockLen >= MAX_DNS_PART_LEN - 1 {
        LabelDone(dnsRes, src[prev..], src[prev..it], src[it..]);
        if dnsRes != [] {
          dnsRes := dnsRes + ['.'];
        }
        dnsRes := dnsRes + ['x'];
        dnsRes := dnsRes + src[prev..it];
        prev := it;
        curBlockLen := 0;
      }
      it := it + 1;
      curBlockLen := curBlockLen + 1;
    }
    if dnsRes != [] {
      dnsRes := dnsRes + ['.'];
    }
    dnsRes := dnsRes + ['x'];
    dnsRes := dnsRes + src[prev..];
  }

  lemma LabelDone(done: Id, s: Id, a: Id, b: Id)
    requires s == a + b && |a| == MAX_DNS_PART_LEN - 1 && b != []
    ensures Joined(done, Labels(s)) == Joined((if done == [] then [] else done + ['.']) + ['x'] + a, Labels(b))
  {
    assert s[..MAX_DNS_PART_LEN - 1] == a && s[MAX_DNS_PART_LEN - 1..] == b;
    if done != [] {
      Relabelled(done, a, Labels(b));
    } else {
      assert [] + ['x'] + a == ['x'] + a;
    }
  }

  lemma Relabelled(done: Id, a: Id, b: Id)
    ensures done + ['.'] + (['x'] + a + ['.'] + b) == (done + ['.'] + ['x'] + a) + ['.'] + b
  {
  }

  method DnsUndiv(encSrc: Id) returns (undotedSrc: Id)
    ensures undotedSrc == Undivided(encSrc)
  {
    undotedSrc := [];
    var prev, it := 0, 0;
    while it != |encSrc|
      invariant 0 <= prev <= it <= |encSrc| && '.' !in encSrc[prev..it]
      invariant Undivided(encSrc) == undotedSrc + encSrc[prev..it] + Undivided(encSrc[it..])
      decreases |encSrc| - it
    {
      if encSrc[it] == '.' {
        DotSkipped(undotedSrc, encSrc, prev, it);
        undotedSrc := undotedSrc + encSrc[prev..it];
        prev := |encSrc|;
        // A dot ends a label, and the byte behind it is no part of the id.
        it := it + 1;
        if it == |encSrc| {
          break;
        }
        it := it + 1;
        if it == |encSrc| {
          break;
        }
        prev := it;
      } else {
        OneMore(undotedSrc, encSrc, prev, it);
        it := it + 1;
      }
    }
    undotedSrc := undotedSrc + encSrc[prev..];
  }

  lemma DotSkipped(done: Id, s: Id, prev: nat, it: nat)
    requires prev <= it < |s| && s[it] == '.'
    ensures done + s[prev..it] + Undivided(s[it..])
         == (done + s[prev..it]) + [] + (if it + 2 < |s| then Undivided(s[it + 2..]) else [])
  {
    if it + 2 < |s| {
      assert s[it..][2..] == s[it + 2..];
    }
  }

  lemma OneMore(done: Id, s: Id, prev: nat, it: nat)
    requires prev <= it < |s| && '.' !in s[prev..it] && s[it] != '.'
    ensures '.' !in s[prev..it + 1]
    ensures done + s[prev..it] + Undivided(s[it..]) == done + s[prev..it + 1] + Undivided(s[it + 1..])
  {
    assert s[prev..it + 1] == s[prev..it] + [s[it]];
    assert s[it..][1..] == s[it + 1..];
    var more := Undivided(s[it + 1..]);
    assert done + s[prev..it] + ([s[it]] + more) == done + (s[prev..it] + [s[it]]) + more;
  }

  // The ids up to the i-th and the text of the others behind them.
  lemma {:induction false} UnionEnd(ids: seq<Id>, id: Id)
    ensures Union(ids + [id]) == (if ids == [] then [] else Union(ids) + [',']) + Escaped(id)
    decreases |ids|
  {
    if ids == [] {
      assert ids + [id] == [id] && [] + Escaped(id) == Escaped(id);
    } else {
      UnionEnd(ids[1..], id);
      assert (ids + [id])[1..] == ids[1..] + [id];
      if |ids| == 1 {
        assert Union(ids + [id]) == Escaped(ids[0]) + [','] + ([] + Escaped(id));
      } else {
        Regrouped(Escaped(ids[0]), Union(ids[1..]), Escaped(id));
      }
    }
  }

  lemma Regrouped(a: Id, b: Id, c: Id)
    ensures a + [','] + (b + [','] + c) == a + [','] + b + [','] + c
  {
  }

  method DnsEncode(userIds: seq<Id>) returns (res: Id)
    ensures res == DnsEncoded(userIds)
  {
    var unionStr := [];
    for i := 0 to |userIds|
      invariant unionStr == Union(userIds[..i])
    {
      UnionEnd(userIds[..i], userIds[i]);
      assert userIds[..i + 1] == userIds[..i] + [userIds[i]];
      if i != 0 {
        unionStr := unionStr + [','];
      }
      var escapedComb := EscapeChar(userIds[i]);
      unionStr := unionStr + escapedComb;
    }
    assert userIds[..|userIds|] == userIds;
    var encodedStr := Encode(unionStr);
    res := DnsDiv(encodedStr);
  }

  // Where ok is false, the original goes on behind the end of the string.
  method DivByComma(bindUserIds: Id) returns (ok: bool, userIds: seq<Id>)
    ensures ok <==> Divided(bindUserIds, []).Some?
    ensures ok ==> Divided(bindUserIds, []).value == userIds
  {
    userIds := [];
    var curBlock: Id := [];
    var it := 0;
    assert bindUserIds[0..] == bindUserIds;
    while it != |bindUserIds|
      invariant 0 <= it <= |bindUserIds|
      invariant Divided(bindUserIds, []) == After(userIds, Divided(bindUserIds[it..], curBlock))
      decreases |bindUserIds| - it
    {
      if bindUserIds[it] == ',' {
        it := it + 1;
        if it != |bindUserIds| && bindUserIds[it] == ',' {
          curBlock := curBlock + [','];
        } else {
          if it == |bindUserIds| {
            return false, userIds;
          }
          AfterTwice(userIds, curBlock, Divided(bindUserIds[it + 1..], [bindUserIds[it]]));
          if curBlock != [] {
            userIds := userIds + [curBlock];
          }
          curBlock := [bindUserIds[it]];
        }
        assert bindUserIds[it - 1..][2..] == bindUserIds[it + 1..];
      } else {
        assert bindUserIds[it..][1..] == bindUserIds[it + 1..];
        curBlock := curBlock + [bindUserIds[it]];
      }
      it := it + 1;
    }
    if curBlock != [] {
      userIds := userIds + [curBlock];
    }
    ok := true;
  }

  function After(ids: seq<Id>, r: Option<seq<Id>>): Option<seq<Id>> {
    match r
    case None => None
    case Some(more) => Some(if ids == [] then more else ids + more)
  }

  lemma AfterTwice(ids: seq<Id>, cur: Id, r: Option<seq<Id>>)
    ensures After(ids, match r case None => None case Some(more) => Some(Pushed(cur, more)))
      == After(if cur == [] then ids else ids + [cur], r)
  {
    if r.Some? {
      assert ids + ([cur] + r.value) == ids + [cur] + r.value;
      assert ids == [] ==> ids + [cur] == [cur];
    }
  }

  function Result(ok: bool, userIds: seq<Id>): Option<seq<Id>> {
    if ok then Some(userIds) else None
  }

  // Appends the ids that were found to those given.
  method DnsDecode(given: seq<Id>, src: Id) returns (ok: bool, userIds: seq<Id>)
    ensures given <= userIds
    ensures exists bytes :: DnsDecodes(src, bytes, Result(ok, userIds[|given|..]))
  {
    if src == [] {
      ok, userIds := true, given;
      assert userIds[|given|..] == [];
      assert DnsDecodes(src, [], Result(ok, userIds[|given|..]));
      return;
    }
    var undotedSrc := DnsUndiv(src[1..]);
    var accepted, bindUserIds := Decode(undotedSrc);
    var found;
    ok, found := DivByComma(bindUserIds);
    userIds := given + found;
    assert userIds[|given|..] == found;
    assert DnsDecodes(src, bindUserIds, Result(ok, userIds[|given|..]));
  }
}
