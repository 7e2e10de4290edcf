// What json_parse answers to a text that is no JSON: which status, and where.
module JsonFaults {
  import opened GasonGrammar
  import opened GasonText
  import opened Options
  import opened WrittenJson

  // ---- Items without an end ----

  function ItemText(x: Item): string {
    FrontText(x.comma, x.name) + (x.space + Text(x.value))
  }

  function ItemsText(xs: seq<Item>): string {
    if xs == [] then "" else ItemText(xs[0]) + ItemsText(xs[1..])
  }

  predicate GoodItems(isObject: bool, separator: bool, tight: bool, xs: seq<Item>)
    decreases |xs|
  {
    xs != [] ==>
      GoodItem(isObject, separator, tight, xs[0]) && GoodItems(isObject, false, IsScalar(xs[0].value), xs[1..])
  }

  // Whether the last of the items is a scalar, which a delimiter has to follow.
  predicate EndsTight(tight: bool, xs: seq<Item>)
    decreases |xs|
  {
    if xs == [] then tight else EndsTight(IsScalar(xs[0].value), xs[1..])
  }

  // The bracket with the items in it.
  function With(top: Frame, xs: seq<Item>): Frame {
    top.(items := top.items + ItemsValue(xs))
  }

  lemma FirstItem(text: string, p: nat, xs: seq<Item>, a: nat, q: nat)
    requires xs != [] && StartsAt(text, p, ItemsText(xs))
    requires a == p + |FrontText(xs[0].comma, xs[0].name)| && q == a + |xs[0].space| + |Text(xs[0].value)|
    ensures StartsAt(text, p, FrontText(xs[0].comma, xs[0].name)) && StartsAt(text, a, xs[0].space + Text(xs[0].value))
    ensures StartsAt(text, a, xs[0].space) && StartsAt(text, q, ItemsText(xs[1..]))
    ensures p + |ItemsText(xs)| == q + |ItemsText(xs[1..])|
  {
    var x := xs[0];
    Within(text, p, ItemText(x), ItemsText(xs[1..]));
    Within(text, p, FrontText(x.comma, x.name), x.space + Text(x.value));
    Within(text, a, x.space, Text(x.value));
  }

  lemma ItemsDelim(text: string, p: nat, isObject: bool, separator: bool, xs: seq<Item>, next: nat)
    requires GoodItems(isObject, separator, true, xs) && StartsAt(text, p, ItemsText(xs)) && next == p + |ItemsText(xs)|
    requires EndsTight(true, xs) ==> IsDelim(At(text, next))
    ensures IsDelim(At(text, p))
  {
    if xs != [] {
      var a := p + |FrontText(xs[0].comma, xs[0].name)|;
      FirstItem(text, p, xs, a, a + |xs[0].space| + |Text(xs[0].value)|);
      FrontDelim(text, p, separator, false, xs[0].comma, xs[0].name, xs[0].space);
    }
  }

  lemma OneMoreItem(top: Frame, xs: seq<Item>)
    requires xs != [] && top.key.None?
    ensures With(Grown(top, ItemValue(xs[0])), xs[1..]) == With(top, xs)
  {
    OneMoreValue(xs, top.items);
  }

  // The items of the innermost bracket are read one after the other.
  lemma {:induction false} RunItems(text: string, k: Ending, p: nat, xs: seq<Item>, stack: seq<Frame>, top: Frame,
                                    separator: bool, tight: bool, next: nat)
    requires Follows(text, k)
    requires GoodItems(top.isObject, separator, tight, xs) && top.key.None? && |stack| < JSON_STACK_SIZE
    requires StartsAt(text, p, ItemsText(xs)) && next == p + |ItemsText(xs)|
    requires xs != [] && EndsTight(tight, xs) ==> IsDelim(At(text, next))
    ensures Arrives(k, More(p, stack + [top], separator), |stack| + 1 + DepthOf(xs),
                    More(next, stack + [With(top, xs)], xs == [] && separator))
    decreases |xs|
  {
    if xs == [] {
      assert With(top, xs) == top;
    } else {
      var x, grown := xs[0], Grown(top, ItemValue(xs[0]));
      var a := p + |FrontText(x.comma, x.name)|;
      var q := a + |x.space| + |Text(x.value)|;
      FirstItem(text, p, xs, a, q);
      if IsScalar(x.value) {
        ItemsDelim(text, q, top.isObject, false, xs[1..], next);
      }
      RunItem(text, k, p, x, stack, top, separator, tight, a, q);
      RunItems(text, k, q, xs[1..], stack, grown, false, IsScalar(x.value), next);
      OneMoreItem(top, xs);
    }
  }

  // ---- Brackets that are still open ----

  // White space, a bracket with some items, and the comma and the key in front of the next bracket inside it.
  datatype Level = Level(space: string, isObject: bool, items: seq<Item>, comma: Sign, name: Name)

  function BracketText(l: Level): string {
    l.space + OpenBracket(l.isObject)
  }

  function LevelsText(ls: seq<Level>): string
    decreases |ls|
  {
    if ls == [] then ""
    else BracketText(ls[0]) + (ItemsText(ls[0].items) + (FrontText(ls[0].comma, ls[0].name) + LevelsText(ls[1..])))
  }

  // separator is the variable of json_parse in front of the bracket, and n how many are open there.
  predicate GoodLevels(separator: bool, n: nat, ls: seq<Level>)
    decreases |ls|
  {
    ls != [] ==>
      var l := ls[0];
      && White(l.space) && n + 1 + DepthOf(l.items) <= 32
      && GoodItems(l.isObject, separator, false, l.items)
      && (if |ls| == 1 then l.comma.NoSign? && l.name.NoName?
          else
            && l.name.Name? == l.isObject
            && GoodFront(l.items == [] && separator, EndsTight(false, l.items), false, l.comma, l.name, ls[1].space))
      && GoodLevels(SeparatorIn(separator, l), n + 1, ls[1..])
  }

  // The variable in front of the next bracket, and behind all that stands in the innermost one.
  predicate SeparatorIn(separator: bool, l: Level) {
    Separated(l.items == [] && separator, l.comma, l.name)
  }

  predicate SeparatorAfter(separator: bool, ls: seq<Level>)
    decreases |ls|
  {
    if ls == [] then separator else SeparatorAfter(SeparatorIn(separator, ls[0]), ls[1..])
  }

  function LevelFrame(l: Level): Frame {
    Named(With(Frame(l.isObject, None, []), l.items), l.name)
  }

  // The stack of json_parse with these brackets on it.
  function Opened(stack: seq<Frame>, ls: seq<Level>): seq<Frame>
    decreases |ls|
  {
    if ls == [] then stack else Opened(stack + [LevelFrame(ls[0])], ls[1..])
  }

  // Where the parts of the outermost level stand: its items at a, the front at b, the rest at c.
  lemma LevelLayout(text: string, p: nat, ls: seq<Level>, a: nat, b: nat, c: nat)
    requires ls != [] && StartsAt(text, p, LevelsText(ls)) && a == p + |ls[0].space| + 1
    requires b == a + |ItemsText(ls[0].items)| && c == b + |FrontText(ls[0].comma, ls[0].name)|
    ensures StartsAt(text, p, BracketText(ls[0])) && StartsAt(text, a, ItemsText(ls[0].items))
    ensures StartsAt(text, b, FrontText(ls[0].comma, ls[0].name)) && StartsAt(text, c, LevelsText(ls[1..]))
    ensures p + |LevelsText(ls)| == c + |LevelsText(ls[1..])|
  {
    var l := ls[0];
    LevelParts(text, p, BracketText(l), ItemsText(l.items), FrontText(l.comma, l.name), LevelsText(ls[1..]), a, b, c);
  }

  lemma LevelParts(text: string, p: nat, s: string, t: string, u: string, v: string, a: nat, b: nat, c: nat)
    requires StartsAt(text, p, s + (t + (u + v))) && a == p + |s| && b == a + |t| && c == b + |u|
    ensures StartsAt(text, p, s) && StartsAt(text, a, t) && StartsAt(text, b, u) && StartsAt(text, c, v)
    ensures p + |s + (t + (u + v))| == c + |v|
  {
    Within(text, p, s, t + (u + v));
    Within(text, a, t, u + v);
    Within(text, b, u, v);
  }

  lemma NextSpace(text: string, p: nat, ls: seq<Level>)
    requires ls != [] && StartsAt(text, p, LevelsText(ls))
    ensures StartsAt(text, p, ls[0].space)
  {
    var front, rest := FrontText(ls[0].comma, ls[0].name), LevelsText(ls[1..]);
    Within(text, p, BracketText(ls[0]), ItemsText(ls[0].items) + (front + rest));
    Within(text, p, ls[0].space, OpenBracket(ls[0].isObject));
  }

  // One level: its bracket is opened and its items are read.
  lemma RunBracket(text: string, k: Ending, p: nat, l: Level, stack: seq<Frame>, separator: bool, a: nat, b: nat)
    requires Follows(text, k) && White(l.space) && |stack| + 1 + DepthOf(l.items) <= 32 && (stack == [] ==> separator)
    requires GoodItems(l.isObject, separator, false, l.items) && StartsAt(text, p, BracketText(l))
    requires StartsAt(text, a, ItemsText(l.items)) && a == p + |l.space| + 1 && b == a + |ItemsText(l.items)|
    requires EndsTight(false, l.items) ==> IsDelim(At(text, b))
    ensures k(More(p, stack, separator))
         == k(More(b, stack + [With(Frame(l.isObject, None, []), l.items)], l.items == [] && separator))
  {
    OpenStep(text, k, p, l.space, l.isObject, stack, separator);
    RunItems(text, k, a, l.items, stack, Frame(l.isObject, None, []), separator, false, b);
  }

  // And then what stands in front of the next one.
  lemma RunFront(text: string, k: Ending, b: nat, l: Level, stack: seq<Frame>, separator: bool, space: string, c: nat)
    requires Follows(text, k) && l.name.Name? == l.isObject
    requires GoodFront(l.items == [] && separator, EndsTight(false, l.items), false, l.comma, l.name, space)
    requires StartsAt(text, b, FrontText(l.comma, l.name)) && c == b + |FrontText(l.comma, l.name)|
    requires StartsAt(text, c, space)
    ensures k(More(b, stack + [With(Frame(l.isObject, None, []), l.items)], l.items == [] && separator))
         == k(More(c, stack + [LevelFrame(l)], SeparatorIn(separator, l)))
    ensures EndsTight(false, l.items) ==> IsDelim(At(text, b))
  {
    var top := With(Frame(l.isObject, None, []), l.items);
    FrontSteps(text, k, b, EndsTight(false, l.items), false, l.comma, l.name, space, stack, top,
               l.items == [] && separator);
    if EndsTight(false, l.items) {
      FrontDelim(text, b, l.items == [] && separator, false, l.comma, l.name, space);
    }
  }

  lemma {:induction false} RunLevels(text: string, k: Ending, p: nat, ls: seq<Level>, stack: seq<Frame>,
                                     separator: bool, next: nat)
    requires Follows(text, k) && LevelsAt(text, p, |stack|, separator, ls, next) && (stack == [] ==> separator)
    ensures k(More(p, stack, separator)) == k(More(next, Opened(stack, ls), SeparatorAfter(separator, ls)))
    decreases |ls|
  {
    if |ls| == 1 {
      RunInner(text, k, p, ls, stack, separator, next);
    } else {
      var a, b, c := OuterLayout(text, p, |stack|, ls, separator, next);
      RunOuter(text, k, p, ls[0], stack, separator, ls[1].space, a, b, c);
      RunLevels(text, k, c, ls[1..], stack + [LevelFrame(ls[0])], SeparatorIn(separator, ls[0]), next);
    }
  }

  lemma RunInner(text: string, k: Ending, p: nat, ls: seq<Level>, stack: seq<Frame>, separator: bool, next: nat)
    requires Follows(text, k) && (stack == [] ==> separator)
    requires |ls| == 1 && LevelsAt(text, p, |stack|, separator, ls, next)
    ensures k(More(p, stack, separator)) == k(More(next, Opened(stack, ls), SeparatorAfter(separator, ls)))
  {
    var a := p + |ls[0].space| + 1;
    LevelLayout(text, p, ls, a, a + |ItemsText(ls[0].items)|, a + |ItemsText(ls[0].items)|);
    LastLevel(stack, ls, separator);
    RunBracket(text, k, p, ls[0], stack, separator, a, next);
  }

  // The outermost level of several: what it is, and where its parts and the next one stand.
  predicate OuterAt(text: string, p: nat, n: nat, l: Level, space: string, separator: bool, a: nat, b: nat, c: nat) {
    && White(l.space) && n + 1 + DepthOf(l.items) <= 32 && l.name.Name? == l.isObject
    && GoodItems(l.isObject, separator, false, l.items)
    && GoodFront(l.items == [] && separator, EndsTight(false, l.items), false, l.comma, l.name, space)
    && StartsAt(text, p, BracketText(l)) && StartsAt(text, a, ItemsText(l.items))
    && StartsAt(text, b, FrontText(l.comma, l.name)) && StartsAt(text, c, space)
    && a == p + |l.space| + 1 && b == a + |ItemsText(l.items)| && c == b + |FrontText(l.comma, l.name)|
  }

  // Several brackets with their items from p up to next, where n are open already.
  predicate LevelsAt(text: string, p: nat, n: nat, separator: bool, ls: seq<Level>, next: nat) {
    && ls != [] && GoodLevels(separator, n, ls) && StartsAt(text, p, LevelsText(ls)) && next == p + |LevelsText(ls)|
    && (EndsTight(false, ls[|ls| - 1].items) ==> Delimits(At(text, next)))
  }

  lemma OuterLayout(text: string, p: nat, n: nat, ls: seq<Level>, separator: bool, next: nat)
    returns (a: nat, b: nat, c: nat)
    requires |ls| > 1 && LevelsAt(text, p, n, separator, ls, next)
    ensures OuterAt(text, p, n, ls[0], ls[1].space, separator, a, b, c)
    ensures LevelsAt(text, c, n + 1, SeparatorIn(separator, ls[0]), ls[1..], next)
  {
    var l := ls[0];
    a := p + |l.space| + 1;
    b := a + |ItemsText(l.items)|;
    c := b + |FrontText(l.comma, l.name)|;
    LevelLayout(text, p, ls, a, b, c);
    NextSpace(text, c, ls[1..]);
  }

  lemma LastLevel(stack: seq<Frame>, ls: seq<Level>, separator: bool)
    requires |ls| == 1 && ls[0].comma.NoSign? && ls[0].name.NoName?
    ensures Opened(stack, ls) == stack + [With(Frame(ls[0].isObject, None, []), ls[0].items)]
    ensures SeparatorAfter(separator, ls) == (ls[0].items == [] && separator)
    ensures |LevelsText(ls)| == |ls[0].space| + 1 + |ItemsText(ls[0].items)|
  {
  }

  lemma RunOuter(text: string, k: Ending, p: nat, l: Level, stack: seq<Frame>, separator: bool, space: string, a: nat,
                 b: nat, c: nat)
    requires Follows(text, k) && OuterAt(text, p, |stack|, l, space, separator, a, b, c) && (stack == [] ==> separator)
    ensures k(More(p, stack, separator)) == k(More(c, stack + [LevelFrame(l)], SeparatorIn(separator, l)))
    ensures |stack + [LevelFrame(l)]| == |stack| + 1
  {
    RunFront(text, k, b, l, stack, separator, space, c);
    RunBracket(text, k, p, l, stack, separator, a, b);
  }

  // ---- Faults ----

  // What may begin a scalar.
  predicate BeginsScalar(c: char) {
    c == '-' || '0' <= c <= '9' || c == '"' || c == 't' || c == 'f' || c == 'n'
  }

  // No token begins with c.
  predicate Stray(c: char) {
    !Blank(c) && c != '\0' && !BeginsScalar(c)
    && c != '[' && c != '{' && c != ']' && c != '}' && c != ':' && c != ','
  }

  // A character that is wrong inside a bracket where neither key nor comma has been read, and the answer to it.
  function FaultInside(isObject: bool, separator: bool, c: char): Option<Status> {
    if c == (if isObject then ']' else '}') then Some(MismatchBracket)
    else if c == ':' || (c == ',' && separator) || Stray(c) then Some(UnexpectedCharacter)
    else None
  }

  // Open brackets with their items, and white space up to p.
  predicate StandsBehind(text: string, ls: seq<Level>, space: string, p: nat) {
    && LevelsAt(text, 0, 0, true, ls, |LevelsText(ls)|) && White(space)
    && StartsAt(text, |LevelsText(ls)|, space) && p == |LevelsText(ls)| + |space|
  }

  // Behind any brackets that are open and any items in them, a wrong character is refused where it stands.
  lemma FaultIsFound(text: string, ls: seq<Level>, space: string, p: nat)
    requires StandsBehind(text, ls, space, p) && p < |text|
    ensures var f := FaultInside(ls[|ls| - 1].isObject, SeparatorAfter(true, ls), text[p]);
      f.Some? ==> Parse(text) == Failed(f.value, p)
  {
    var inner, separator := ls[|ls| - 1].isObject, SeparatorAfter(true, ls);
    if FaultInside(inner, separator, text[p]).Some? {
      var k, frames, q := Entered(text, ls, space, p);
      FaultStops(text, k, q, space, frames, inner, separator, p);
    }
  }

  lemma {:induction false} InnerBracket(separator: bool, n: nat, stack: seq<Frame>, ls: seq<Level>)
    requires ls != [] && GoodLevels(separator, n, ls)
    ensures var frames := Opened(stack, ls);
      && |frames| == |stack| + |ls| && frames[|frames| - 1].key.None?
      && frames[|frames| - 1].isObject == ls[|ls| - 1].isObject
    decreases |ls|
  {
    if |ls| > 1 {
      InnerBracket(SeparatorIn(separator, ls[0]), n + 1, stack + [LevelFrame(ls[0])], ls[1..]);
    } else {
      LastLevel(stack, ls, separator);
    }
  }

  lemma LevelsRead(text: string, ls: seq<Level>, q: nat) returns (k: Ending, frames: seq<Frame>)
    requires LevelsAt(text, 0, 0, true, ls, q)
    ensures Follows(text, k) && Parse(text) == k(More(q, frames, SeparatorAfter(true, ls)))
    ensures |frames| == |ls| && frames[|frames| - 1].key.None?
    ensures frames[|frames| - 1].isObject == ls[|ls| - 1].isObject
  {
    k := ParseEnding(text);
    frames := Opened([], ls);
    RunLevels(text, k, 0, ls, [], true, q);
    InnerBracket(true, 0, [], ls);
  }

  lemma ParseEnding(text: string) returns (k: Ending)
    ensures Follows(text, k) && k(More(0, [], true)) == Parse(text)
  {
    k := EndingOf(text);
    EndingFollows(text);
  }

  lemma Entered(text: string, ls: seq<Level>, space: string, p: nat) returns (k: Ending, frames: seq<Frame>, q: nat)
    requires StandsBehind(text, ls, space, p)
    ensures Follows(text, k) && Parse(text) == k(More(q, frames, SeparatorAfter(true, ls)))
    ensures |frames| == |ls| && frames[|frames| - 1].key.None?
    ensures frames[|frames| - 1].isObject == ls[|ls| - 1].isObject
    ensures White(space) && StartsAt(text, q, space) && p == q + |space|
  {
    q := |LevelsText(ls)|;
    k, frames := LevelsRead(text, ls, q);
  }

  lemma Ended(text: string, k: Ending, r: Outcome)
    requires Follows(text, k)
    ensures k(Stop(r)) == r
  {
    assert Ends(text, Stop(r), r);
  }

  lemma FaultStops(text: string, k: Ending, q: nat, space: string, frames: seq<Frame>, isObject: bool, separator: bool,
                   p: nat)
    requires Follows(text, k) && White(space) && StartsAt(text, q, space) && p == q + |space| < |text|
    requires frames != [] && frames[|frames| - 1].key.None? && frames[|frames| - 1].isObject == isObject
    requires FaultInside(isObject, separator, text[p]).Some?
    ensures k(More(q, frames, separator)) == Failed(FaultInside(isObject, separator, text[p]).value, p)
  {
    var status := FaultInside(isObject, separator, text[p]).value;
    FaultRound(text, q, space, frames, separator, p, status);
    Rounds(text, k, q, frames, separator, Stop(Failed(status, p)));
    Ended(text, k, Failed(status, p));
  }

  lemma FaultRound(text: string, q: nat, space: string, frames: seq<Frame>, separator: bool, p: nat, status: Status)
    requires White(space) && StartsAt(text, q, space) && p == q + |space| < |text|
    requires frames != [] && frames[|frames| - 1].key.None?
    requires FaultInside(frames[|frames| - 1].isObject, separator, text[p]) == Some(status)
    ensures q <= |text| && Step(text, q, frames, separator) == Stop(Failed(status, p))
  {
    SkipWhite(text, q, space);
    FirstOf(text, q, space);
  }

  // Where no bracket is open.
  function FaultOutside(c: char): Option<Status> {
    if c == ']' || c == '}' then Some(StackUnderflow)
    else if c == ':' || c == ',' || Stray(c) then Some(UnexpectedCharacter)
    else None
  }

  lemma FirstFaultIsFound(text: string, space: string, p: nat)
    requires White(space) && StartsAt(text, 0, space) && p == |space| < |text| && FaultOutside(text[p]).Some?
    ensures Parse(text) == Failed(FaultOutside(text[p]).value, p)
  {
    var r := Failed(FaultOutside(text[p]).value, p);
    SkipWhite(text, 0, space);
    FirstOf(text, 0, space);
    assert Step(text, 0, [], true) == Stop(r);
  }

  // The 33rd bracket is one too many.
  lemma OverflowIsFound(text: string, ls: seq<Level>, space: string, p: nat)
    requires StandsBehind(text, ls, space, p) && |ls| == 32 && p < |text|
    requires text[p] == '[' || text[p] == '{'
    ensures Parse(text) == Failed(StackOverflow, p)
  {
    var k, frames, q := Entered(text, ls, space, p);
    OverflowStops(text, k, q, space, frames, SeparatorAfter(true, ls), p);
  }

  lemma OverflowStops(text: string, k: Ending, q: nat, space: string, frames: seq<Frame>, separator: bool, p: nat)
    requires Follows(text, k) && White(space) && StartsAt(text, q, space) && p == q + |space| < |text|
    requires |frames| == 32 && (text[p] == '[' || text[p] == '{')
    ensures k(More(q, frames, separator)) == Failed(StackOverflow, p)
  {
    SkipWhite(text, q, space);
    FirstOf(text, q, space);
    assert Step(text, q, frames, separator) == Stop(Failed(StackOverflow, p));
    Rounds(text, k, q, frames, separator, Stop(Failed(StackOverflow, p)));
    Ended(text, k, Failed(StackOverflow, p));
  }

  // The text is over while brackets are open.
  lemma EndsTooEarly(text: string, ls: seq<Level>)
    requires ls != [] && GoodLevels(true, 0, ls) && text == LevelsText(ls)
    ensures Parse(text) == Failed(BreakingBad, |text|)
  {
    Whole(text);
    var k, frames := LevelsRead(text, ls, |text|);
    var r := Failed(BreakingBad, |text|);
    Rounds(text, k, |text|, frames, SeparatorAfter(true, ls), Stop(r));
    Ended(text, k, r);
  }

  // The token that json_parse points to where the text is over: it stands at p and ends the text.
  predicate EndsText(text: string, p: nat) {
    && p < |text| && !Blank(text[p])
    && (p + 1 == |text| || (BeginsScalar(text[p]) && LexScalar(text, p).Scalar? && LexScalar(text, p).next == |text|))
  }

  lemma {:induction false} LastTokenEndsText(text: string, pos: nat, last: nat)
    requires pos < |text| && '\0' !in text && !Blank(text[|text| - 1])
    ensures EndsText(text, LastToken(text, pos, last))
    decreases |text| - pos
  {
    var p := SkipSpace(text, pos);
    SkipsBefore(text, pos);
    if TokenEnd(text, p) < |text| {
      LastTokenEndsText(text, TokenEnd(text, p), p);
    }
  }

  lemma {:induction false} SkipsBefore(text: string, pos: nat)
    requires pos < |text| && !IsSpace(text[|text| - 1])
    ensures SkipSpace(text, pos) < |text|
    decreases |text| - pos
  {
    if IsSpace(text[pos]) {
      SkipsBefore(text, pos + 1);
    }
  }

  lemma Whole(text: string)
    ensures StartsAt(text, 0, text)
  {
  }

  // A key that is a scalar but no string is refused where it starts.
  lemma KeyIsNoString(text: string, ls: seq<Level>, space: string, d: Doc, start: nat, next: nat)
    requires LevelsAt(text, 0, 0, true, ls, |LevelsText(ls)|) && ls[|ls| - 1].isObject
    requires ScalarText(text, |LevelsText(ls)|, space, d, start, next) && !d.DString?
    ensures Parse(text) == Failed(UnquotedKey, start)
  {
    var k, frames := LevelsRead(text, ls, |LevelsText(ls)|);
    ScalarStep(text, k, |LevelsText(ls)|, space, d, start, next, frames, SeparatorAfter(true, ls));
    Ended(text, k, Failed(UnquotedKey, start));
  }

  // ---- Faults inside a token ----

  // What is wrong with the token at p, and where: a word that is none of the three, a number that does not begin or
  // does not end, a bad escape in a string, or no delimiter behind it.
  ghost predicate BadToken(text: string, p: nat, status: Status, at: nat) {
    || (status == BadIdentifier && at == p && BadWord(text, p))
    || (status == BadNumber && BadNumberAt(text, p, at))
    || (status == BadString && BadStringAt(text, p, at))
  }

  predicate IsWord(text: string, p: nat, word: string) {
    StartsAt(text, p, word) && Delimits(At(text, p + |word|))
  }

  predicate BadWord(text: string, p: nat) {
    p < |text| && (text[p] == 't' || text[p] == 'f' || text[p] == 'n')
    && !IsWord(text, p, "true") && !IsWord(text, p, "false") && !IsWord(text, p, "null")
  }

  ghost predicate BadNumberAt(text: string, p: nat, at: nat) {
    p < |text|
    && ((text[p] == '-' && at == p + 1 && !('0' <= At(text, at) <= '9') && At(text, at) != '.')
        || (exists d: Doc :: NumberUpTo(text, p, d, at)))
  }

  // A number, and behind it what neither belongs to it nor delimits it.
  predicate NumberUpTo(text: string, p: nat, d: Doc, at: nat) {
    d.DNumber? && GoodNumber(d) && StartsAt(text, p, NumberText(d)) && at == p + |NumberText(d)|
    && EndsNumber(At(text, at)) && !Delimits(At(text, at))
  }

  ghost predicate BadStringAt(text: string, p: nat, at: nat) {
    p < |text| && text[p] == '"' && exists s :: GoodPieces(s) && BadAfter(text, p + 1, s, at)
  }

  // Behind the pieces there is a quote and no delimiter, or a backslash and no escape.
  predicate BadAfter(text: string, p: nat, s: seq<Piece>, at: nat) {
    StartsAt(text, p, PiecesText(s)) && BadEnd(text, p + |PiecesText(s)|, at)
  }

  predicate BadEnd(text: string, q: nat, at: nat) {
    || (At(text, q) == '"' && at == q + 1 && !Delimits(At(text, at)))
    || (At(text, q) == '\\' && at == q + 1 && !EscapeLetter(At(text, at)) && At(text, at) != 'u')
    || (At(text, q) == '\\' && At(text, q + 1) == 'u' && q + 2 <= at < q + 6 && !HexDigit(At(text, at))
        && forall i :: q + 2 <= i < at ==> HexDigit(At(text, i)))
  }

  lemma {:induction false} HexBroken(text: string, p: nat, n: nat, at: nat)
    requires p <= at < p + n && !HexDigit(At(text, at)) && forall i :: p <= i < at ==> HexDigit(At(text, i))
    ensures HexAt(text, p, n) == NoHex(at)
    decreases n
  {
    if at < p + n - 1 {
      HexBroken(text, p, n - 1, at);
    } else {
      HexWhole(text, p, n - 1);
    }
  }

  lemma {:induction false} HexWhole(text: string, p: nat, n: nat)
    requires forall i :: p <= i < p + n ==> HexDigit(At(text, i))
    ensures HexAt(text, p, n).Code?
    decreases n
  {
    if n > 0 {
      HexWhole(text, p, n - 1);
    }
  }

  lemma FirstPiece(text: string, p: nat, s: seq<Piece>) returns (q: nat)
    requires s != [] && StartsAt(text, p, PiecesText(s))
    ensures q == p + |PieceText(s[0])| && q + |PiecesText(s[1..])| == p + |PiecesText(s)|
    ensures StartsAt(text, p, PieceText(s[0])) && StartsAt(text, q, PiecesText(s[1..]))
  {
    q := Behind(text, p, PieceText(s[0]), PiecesText(s[1..]));
  }

  lemma Behind(text: string, p: nat, a: string, b: string) returns (q: nat)
    requires StartsAt(text, p, a + b)
    ensures q == p + |a| && q + |b| == p + |a + b| && StartsAt(text, p, a) && StartsAt(text, q, b)
  {
    q := p + |a|;
    Within(text, p, a, b);
  }

  lemma {:induction false} PiecesPassed(text: string, p: nat, s: seq<Piece>, next: nat)
    requires GoodPieces(s) && StartsAt(text, p, PiecesText(s)) && next == p + |PiecesText(s)|
    ensures next <= |text| && LexString(text, p) == Prepend(PiecesValue(s), LexString(text, next))
    decreases |s|
  {
    if s == [] {
      PrependNothing(LexString(text, p));
    } else {
      var q := FirstPiece(text, p, s);
      PieceLexed(text, p, s[0]);
      PiecesPassed(text, q, s[1..], next);
      PrependBoth(PieceValue(s[0]), PiecesValue(s[1..]), LexString(text, next));
    }
  }

  lemma PrependNothing(l: Literal)
    ensures Prepend("", l) == l
  {
    match l
    case Closed(t, _) => assert "" + t == t;
    case Open(t, _) => assert "" + t == t;
    case Broken(_) =>
  }

  lemma PrependBoth(a: string, b: string, l: Literal)
    ensures Prepend(a, Prepend(b, l)) == Prepend(a + b, l)
  {
    match l
    case Closed(t, _) => assert a + (b + t) == (a + b) + t;
    case Open(t, _) => assert a + (b + t) == (a + b) + t;
    case Broken(_) =>
  }

  lemma EndBroken(text: string, q: nat, at: nat)
    requires q <= |text| && BadEnd(text, q, at)
    ensures LexString(text, q) == Broken(at) || (LexString(text, q) == Closed("", at) && !IsDelim(At(text, at)))
  {
    if At(text, q) == '\\' && At(text, q + 1) == 'u' {
      HexBroken(text, q + 2, 4, at);
    }
  }

  lemma StringBroken(text: string, p: nat, s: seq<Piece>, at: nat)
    requires p < |text| && text[p] == '"' && GoodPieces(s) && BadAfter(text, p + 1, s, at)
    ensures LexScalar(text, p) == Wrong(BadString, at)
  {
    var q := p + 1 + |PiecesText(s)|;
    PiecesPassed(text, p + 1, s, q);
    EndBroken(text, q, at);
  }

  lemma NumberBroken(text: string, p: nat, at: nat)
    requires BadNumberAt(text, p, at)
    ensures StartsScalar(text[p]) && LexScalar(text, p) == Wrong(BadNumber, at)
  {
    if !(text[p] == '-' && at == p + 1 && !('0' <= At(text, at) <= '9') && At(text, at) != '.') {
      var d: Doc :| NumberUpTo(text, p, d, at);
      NumberStops(text, p, d, at);
    }
  }

  lemma NumberStops(text: string, p: nat, d: Doc, at: nat)
    requires p < |text| && NumberUpTo(text, p, d, at)
    ensures StartsScalar(text[p]) && LexScalar(text, p) == Wrong(BadNumber, at)
  {
    NumberIsAt(text, p, d);
    assert At(text, p) == text[p];
  }

  lemma WordBroken(text: string, p: nat)
    requires BadWord(text, p)
    ensures StartsScalar(text[p]) && LexScalar(text, p) == Wrong(BadIdentifier, p)
  {
    WordParts(text, p, "true", "rue");
    WordParts(text, p, "false", "alse");
    WordParts(text, p, "null", "ull");
  }

  lemma WordParts(text: string, p: nat, word: string, rest: string)
    requires |word| == |rest| + 1 && word[1..] == rest
    ensures p < |text| && text[p] == word[0] && StartsAt(text, p + 1, rest) ==> StartsAt(text, p, word)
  {
    if p < |text| && text[p] == word[0] && StartsAt(text, p + 1, rest) {
      forall i | 0 <= i < |word| ensures word[i] == text[p + i] {
        assert i > 0 ==> word[i] == rest[i - 1];
      }
    }
  }

  lemma TokenBroken(text: string, p: nat, status: Status, at: nat)
    requires BadToken(text, p, status, at)
    ensures p < |text| && StartsScalar(text[p]) && LexScalar(text, p) == Wrong(status, at)
  {
    if status == BadIdentifier && at == p && BadWord(text, p) {
      WordBroken(text, p);
    } else if status == BadNumber && BadNumberAt(text, p, at) {
      NumberBroken(text, p, at);
    } else {
      var s :| GoodPieces(s) && BadAfter(text, p + 1, s, at);
      StringBroken(text, p, s, at);
    }
  }

  // Behind any open brackets and items, a broken token gives its own status and place.
  lemma TokenFaultIsFound(text: string, ls: seq<Level>, space: string, p: nat, status: Status, at: nat)
    requires BadToken(text, p, status, at)
    requires if ls == [] then White(space) && StartsAt(text, 0, space) && p == |space|
             else StandsBehind(text, ls, space, p)
    ensures Parse(text) == Failed(status, at)
  {
    TokenBroken(text, p, status, at);
    if ls == [] {
      BrokenRound(text, 0, space, p, status, at);
      assert Step(text, 0, [], true) == Stop(Failed(status, at));
    } else {
      var k, frames, q := Entered(text, ls, space, p);
      BrokenRound(text, q, space, p, status, at);
      Rounds(text, k, q, frames, SeparatorAfter(true, ls), Stop(Failed(status, at)));
      Ended(text, k, Failed(status, at));
    }
  }

  lemma BrokenRound(text: string, q: nat, space: string, p: nat, status: Status, at: nat)
    requires White(space) && StartsAt(text, q, space) && p == q + |space| < |text|
    requires StartsScalar(text[p]) && LexScalar(text, p) == Wrong(status, at)
    ensures q <= |text| && forall stack, separator :: (stack == [] ==> separator) ==>
      Step(text, q, stack, separator) == Stop(Failed(status, at))
  {
    SkipWhite(text, q, space);
    FirstOf(text, q, space);
  }
}
