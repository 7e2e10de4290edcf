// json_parse on the text of a Doc, step by step: what is open around it, how far it gets and when the stack overflows.
module WrittenJson {
  import opened GasonGrammar
  import opened GasonText
  import opened Options

  // The innermost bracket takes a value now.
  predicate Ready(stack: seq<Frame>) {
    stack == [] || !stack[|stack| - 1].isObject || stack[|stack| - 1].key.Some?
  }

  // What json_parse ends with, from any point on.
  type Ending = Progress -> Outcome

  ghost predicate Follows(text: string, k: Ending) {
    forall a, r :: Ends(text, a, r) ==> k(a) == r
  }

  function EndingOf(text: string): Ending {
    (a: Progress) =>
      match a
      case Stop(outcome) => outcome
      case More(pos, stack, separator) =>
        if pos <= |text| && (stack == [] ==> separator) then Run(text, pos, stack, separator) else Failed(Overrun, pos)
  }

  lemma EndingFollows(text: string)
    ensures Follows(text, EndingOf(text))
    ensures EndingOf(text)(More(0, [], true)) == Parse(text)
  {
  }

  // a comes to what b comes to, unless more brackets than the stack holds are opened on the way.
  predicate Arrives(k: Ending, a: Progress, depth: nat, b: Progress) {
    if depth <= JSON_STACK_SIZE then k(a) == k(b) else k(a).Failed? && k(a).status == StackOverflow
  }

  lemma ArrivesFrom(k: Ending, a: Progress, b: Progress, depth: nat, c: Progress)
    requires k(a) == k(b) && Arrives(k, b, depth, c)
    ensures Arrives(k, a, depth, c)
  {
  }

  lemma Rounds(text: string, k: Ending, pos: nat, stack: seq<Frame>, separator: bool, b: Progress)
    requires Follows(text, k)
    requires pos <= |text| && (stack == [] ==> separator) && Step(text, pos, stack, separator) == b
    ensures k(More(pos, stack, separator)) == k(b)
  {
    var r := Run(text, pos, stack, separator);
    assert Ends(text, More(pos, stack, separator), r) && Ends(text, b, r);
  }

  lemma Regrouped(a: string, b: string, c: string)
    ensures a + (b + c) == (a + b) + c
  {
  }

  lemma Under(stack: seq<Frame>, top: Frame)
    ensures (stack + [top])[..|stack|] == stack && (stack + [top])[|stack|] == top && |stack + [top]| == |stack| + 1
  {
  }

  // White space in front of a token is skipped.
  lemma TokenAt(text: string, p: nat, w: string, t: string)
    requires White(w) && t != "" && !IsSpace(t[0]) && t[0] != NUL && StartsAt(text, p, w + t)
    ensures p + |w| < |text| && At(text, p) != NUL && SkipSpace(text, p) == p + |w| && text[p + |w|] == t[0]
    ensures StartsAt(text, p + |w|, t)
  {
    Within(text, p, w, t);
    FirstOf(text, p, w);
    FirstOf(text, p + |w|, t);
    SkipWhite(text, p, w);
  }

  // A scalar from p on behind white space: from start up to next.
  predicate ScalarText(text: string, p: nat, w: string, d: Doc, start: nat, next: nat) {
    && Good(d, true) && IsScalar(d) && White(w) && StartsAt(text, p, w + Text(d))
    && start == p + |w| && next == start + |Text(d)| && IsDelim(At(text, next))
  }

  lemma ScalarAt(text: string, p: nat, w: string, d: Doc, start: nat, next: nat)
    requires ScalarText(text, p, w, d, start, next)
    ensures p <= |text| && At(text, p) != NUL && SkipSpace(text, p) == start < |text| && StartsScalar(text[start])
    ensures LexScalar(text, start) == Scalar(Value(d), next)
  {
    Within(text, p, w, Text(d));
    ScalarLexed(text, start, d);
    FirstOf(text, start, Text(d));
    TokenAt(text, p, w, Text(d));
  }

  lemma ScalarRound(text: string, p: nat, start: nat, v: Json, next: nat, stack: seq<Frame>, separator: bool)
    requires p <= |text| && (stack == [] ==> separator) && At(text, p) != NUL && SkipSpace(text, p) == start < |text|
    requires StartsScalar(text[start]) && LexScalar(text, start) == Scalar(v, next)
    ensures Step(text, p, stack, separator) == Complete(v, start, next, stack)
  {
    assert text[start] != NUL;
  }

  lemma ScalarStep(text: string, k: Ending, p: nat, w: string, d: Doc, start: nat, next: nat, stack: seq<Frame>,
                   separator: bool)
    requires Follows(text, k) && ScalarText(text, p, w, d, start, next) && (stack == [] ==> separator)
    ensures k(More(p, stack, separator)) == k(Complete(Value(d), start, next, stack))
  {
    WrittenRound(text, p, w, d, start, next, stack, separator);
    Rounds(text, k, p, stack, separator, Complete(Value(d), start, next, stack));
  }

  lemma WrittenRound(text: string, p: nat, w: string, d: Doc, start: nat, next: nat, stack: seq<Frame>,
                     separator: bool)
    requires ScalarText(text, p, w, d, start, next) && (stack == [] ==> separator)
    ensures p <= |text| && Step(text, p, stack, separator) == Complete(Value(d), start, next, stack)
  {
    ScalarAt(text, p, w, d, start, next);
    ScalarRound(text, p, start, Value(d), next, stack, separator);
  }

  lemma OpenStep(text: string, k: Ending, p: nat, w: string, isObject: bool, stack: seq<Frame>, separator: bool)
    requires Follows(text, k)
    requires White(w) && StartsAt(text, p, w + OpenBracket(isObject)) && (stack == [] ==> separator)
    requires |stack| <= JSON_STACK_SIZE
    ensures Arrives(k, More(p, stack, separator), |stack| + 1,
                    More(p + |w| + 1, stack + [Frame(isObject, None, [])], separator))
  {
    TokenAt(text, p, w, OpenBracket(isObject));
    if |stack| < JSON_STACK_SIZE {
      Rounds(text, k, p, stack, separator, More(p + |w| + 1, stack + [Frame(isObject, None, [])], separator));
    } else {
      Rounds(text, k, p, stack, separator, Stop(Failed(StackOverflow, p + |w|)));
      assert Ends(text, Stop(Failed(StackOverflow, p + |w|)), Failed(StackOverflow, p + |w|));
    }
  }

  // Where a value starts matters only when it stands in place of a key.
  lemma CompleteReady(v: Json, start: nat, next: nat, stack: seq<Frame>)
    requires Ready(stack)
    ensures Complete(v, start, next, stack) == Complete(v, 0, next, stack)
  {
  }

  lemma CloseRound(text: string, p: nat, start: nat, stack: seq<Frame>, top: Frame, separator: bool)
    requires p <= |text| && At(text, p) != NUL && SkipSpace(text, p) == start < |text|
    requires [text[start]] == CloseBracket(top.isObject)
    ensures Step(text, p, stack + [top], separator)
         == Complete(List(top.isObject, top.items), start, start + 1, stack)
  {
    Under(stack, top);
  }

  lemma CloseStep(text: string, k: Ending, p: nat, w: string, stack: seq<Frame>, top: Frame, separator: bool)
    requires Follows(text, k) && Ready(stack)
    requires White(w) && StartsAt(text, p, w + CloseBracket(top.isObject))
    ensures k(More(p, stack + [top], separator)) == k(Complete(List(top.isObject, top.items), 0, p + |w| + 1, stack))
  {
    var v := List(top.isObject, top.items);
    TokenAt(text, p, w, CloseBracket(top.isObject));
    CloseRound(text, p, p + |w|, stack, top, separator);
    Rounds(text, k, p, stack + [top], separator, Complete(v, p + |w|, p + |w| + 1, stack));
    CompleteReady(v, p + |w|, p + |w| + 1, stack);
  }

  // A comma is read where no key waits for its value, a colon where one does.
  lemma SignStep(text: string, k: Ending, p: nat, sign: Sign, c: char, stack: seq<Frame>, top: Frame, separator: bool)
    requires Follows(text, k)
    requires c == (if top.key.None? then ',' else ':') && StartsAt(text, p, SignText(sign, c))
    requires sign.Sign? ==> White(sign.before) && !separator
    ensures k(More(p, stack + [top], separator))
         == k(More(p + |SignText(sign, c)|, stack + [top], separator || sign.Sign?))
  {
    if sign.Sign? {
      TokenAt(text, p, sign.before, [c]);
      Rounds(text, k, p, stack + [top], false, More(p + |SignText(sign, c)|, stack + [top], true));
    }
  }

  // ---- In front of a value ----

  // A gap that separates, or whatever closes the bracket, starts with a delimiter.
  lemma GapDelim(text: string, p: nat, separator: bool, closes: bool, sign: Sign, c: char, space: string)
    requires GoodGap(separator, !closes, sign, space) && IsDelim(c)
    requires StartsAt(text, p, SignText(sign, c)) && StartsAt(text, p + |SignText(sign, c)|, space)
    requires closes ==> IsDelim(At(text, p + |SignText(sign, c)| + |space|))
    ensures IsDelim(At(text, p))
  {
    FirstOf(text, p, SignText(sign, c));
    FirstOf(text, p + |SignText(sign, c)|, space);
  }

  lemma KeyStep(text: string, k: Ending, p: nat, w: string, key: seq<Piece>, start: nat, next: nat, stack: seq<Frame>,
                top: Frame, separator: bool)
    requires Follows(text, k) && ScalarText(text, p, w, DString(key), start, next) && top.isObject && top.key.None?
    ensures k(More(p, stack + [top], separator))
         == k(More(next, stack + [top.(key := Some(PiecesValue(key)))], false))
  {
    ScalarStep(text, k, p, w, DString(key), start, next, stack + [top], separator);
    Under(stack, top);
  }

  // The innermost bracket with the key that stands in front of the value.
  function Named(top: Frame, name: Name): Frame {
    if name.Name? then top.(key := Some(PiecesValue(name.key))) else top
  }

  lemma NameLayout(text: string, p: nat, name: Name, a: nat)
    requires name.Name? && StartsAt(text, p, NameText(name)) && a == p + |name.before| + |Quoted(name.key)|
    ensures StartsAt(text, p, name.before + Quoted(name.key)) && StartsAt(text, a, SignText(name.colon, ':'))
    ensures p + |NameText(name)| == a + |SignText(name.colon, ':')|
  {
    var quoted, colon := Quoted(name.key), SignText(name.colon, ':');
    Regrouped(name.before, quoted, colon);
    Within(text, p, name.before + quoted, colon);
  }

  // A key from p up to a, and its colon, if it has one, up to q.
  predicate NameStands(text: string, p: nat, name: Name, a: nat, q: nat) {
    && name.Name? && ScalarText(text, p, name.before, DString(name.key), p + |name.before|, a)
    && StartsAt(text, a, SignText(name.colon, ':')) && q == a + |SignText(name.colon, ':')|
    && (name.colon.Sign? ==> White(name.colon.before))
  }

  lemma NameAt(text: string, p: nat, closes: bool, name: Name, space: string, a: nat)
    requires name.Name? && White(name.before) && GoodPieces(name.key) && GoodGap(false, !closes, name.colon, space)
    requires StartsAt(text, p, NameText(name)) && StartsAt(text, p + |NameText(name)|, space)
    requires closes ==> IsDelim(At(text, p + |NameText(name)| + |space|))
    requires a == p + |name.before| + |Quoted(name.key)|
    ensures NameStands(text, p, name, a, p + |NameText(name)|)
  {
    NameLayout(text, p, name, a);
    GapDelim(text, a, false, closes, name.colon, ':', space);
  }

  lemma NameReads(text: string, k: Ending, p: nat, name: Name, a: nat, q: nat, stack: seq<Frame>, top: Frame,
                  separator: bool)
    requires Follows(text, k) && NameStands(text, p, name, a, q) && top.isObject && top.key.None?
    ensures k(More(p, stack + [top], separator)) == k(More(q, stack + [Named(top, name)], name.colon.Sign?))
  {
    KeyStep(text, k, p, name.before, name.key, p + |name.before|, a, stack, top, separator);
    SignStep(text, k, a, name.colon, ':', stack, Named(top, name), false);
  }

  lemma NameSteps(text: string, k: Ending, p: nat, closes: bool, name: Name, space: string, stack: seq<Frame>,
                  top: Frame, separator: bool)
    requires Follows(text, k)
    requires name.Name? && White(name.before) && GoodPieces(name.key) && GoodGap(false, !closes, name.colon, space)
    requires top.isObject && top.key.None?
    requires StartsAt(text, p, NameText(name)) && StartsAt(text, p + |NameText(name)|, space)
    requires closes ==> IsDelim(At(text, p + |NameText(name)| + |space|))
    ensures k(More(p, stack + [top], separator))
         == k(More(p + |NameText(name)|, stack + [Named(top, name)], name.colon.Sign?))
  {
    var a := p + |name.before| + |Quoted(name.key)|;
    NameAt(text, p, closes, name, space, a);
    NameReads(text, k, p, name, a, p + |NameText(name)|, stack, top, separator);
  }

  // A comma and a key, where there are any.
  lemma FrontSteps(text: string, k: Ending, p: nat, tight: bool, closes: bool, comma: Sign, name: Name, space: string,
                   stack: seq<Frame>, top: Frame, separator: bool)
    requires Follows(text, k)
    requires GoodFront(separator, tight, closes, comma, name, space) && (name.Name? ==> top.isObject) && top.key.None?
    requires StartsAt(text, p, FrontText(comma, name)) && StartsAt(text, p + |FrontText(comma, name)|, space)
    requires closes ==> IsDelim(At(text, p + |FrontText(comma, name)| + |space|))
    ensures k(More(p, stack + [top], separator))
         == k(More(p + |FrontText(comma, name)|, stack + [Named(top, name)], Separated(separator, comma, name)))
  {
    Within(text, p, SignText(comma, ','), NameText(name));
    SignStep(text, k, p, comma, ',', stack, top, separator);
    if name.Name? {
      var a := p + |SignText(comma, ',')|;
      NameSteps(text, k, a, closes, name, space, stack, top, separator || comma.Sign?);
    }
  }

  // ---- The whole of a value ----

  // Where the parts of the first item stand, and where the rest of the bracket goes on.
  lemma ItemLayout(text: string, p: nat, isObject: bool, xs: seq<Item>, end: End, a: nat, q: nat)
    requires xs != [] && StartsAt(text, p, RestText(isObject, xs, end))
    requires a == p + |FrontText(xs[0].comma, xs[0].name)| && q == a + |xs[0].space| + |Text(xs[0].value)|
    ensures StartsAt(text, p, FrontText(xs[0].comma, xs[0].name)) && StartsAt(text, a, xs[0].space + Text(xs[0].value))
    ensures StartsAt(text, a, xs[0].space)
    ensures StartsAt(text, q, RestText(isObject, xs[1..], end))
    ensures p + |RestText(isObject, xs, end)| == q + |RestText(isObject, xs[1..], end)|
  {
    var x := xs[0];
    PartsLayout(text, p, FrontText(x.comma, x.name), x.space, Text(x.value), RestText(isObject, xs[1..], end), a, q);
  }

  lemma PartsLayout(text: string, p: nat, front: string, space: string, value: string, rest: string, a: nat, q: nat)
    requires StartsAt(text, p, front + (space + value + rest)) && a == p + |front| && q == a + |space| + |value|
    ensures StartsAt(text, p, front) && StartsAt(text, a, space + value) && StartsAt(text, a, space)
    ensures StartsAt(text, q, rest) && p + |front + (space + value + rest)| == q + |rest|
  {
    Within(text, p, front, space + value + rest);
    Within(text, a, space + value, rest);
    Within(text, a, space, value);
  }

  lemma ListLayout(text: string, p: nat, w: string, d: Doc, q: nat)
    requires d.DList? && StartsAt(text, p, w + Text(d)) && q == p + |w| + 1
    ensures StartsAt(text, p, w + OpenBracket(d.isObject))
    ensures StartsAt(text, q, RestText(d.isObject, d.items, d.end))
    ensures p + |w| + |Text(d)| == q + |RestText(d.isObject, d.items, d.end)|
  {
    var open, rest := OpenBracket(d.isObject), RestText(d.isObject, d.items, d.end);
    Regrouped(w, open, rest);
    Within(text, p, w + open, rest);
  }

  lemma EndLayout(text: string, p: nat, isObject: bool, end: End, a: nat)
    requires StartsAt(text, p, RestText(isObject, [], end)) && a == p + |FrontText(end.comma, end.name)|
    ensures StartsAt(text, p, FrontText(end.comma, end.name)) && StartsAt(text, a, end.space + CloseBracket(isObject))
    ensures StartsAt(text, a, end.space) && IsDelim(At(text, a + |end.space|))
    ensures p + |RestText(isObject, [], end)| == a + |end.space| + 1
  {
    Within(text, p, FrontText(end.comma, end.name), end.space + CloseBracket(isObject));
    Within(text, a, end.space, CloseBracket(isObject));
    FirstOf(text, a + |end.space|, CloseBracket(isObject));
  }

  lemma FrontDelim(text: string, p: nat, separator: bool, closes: bool, comma: Sign, name: Name, space: string)
    requires GoodFront(separator, true, closes, comma, name, space)
    requires StartsAt(text, p, FrontText(comma, name)) && StartsAt(text, p + |FrontText(comma, name)|, space)
    requires closes ==> IsDelim(At(text, p + |FrontText(comma, name)| + |space|))
    ensures IsDelim(At(text, p))
  {
    Within(text, p, SignText(comma, ','), NameText(name));
    if name.NoName? {
      GapDelim(text, p, separator, closes, comma, ',', space);
    } else {
      var more := Quoted(name.key) + SignText(name.colon, ':');
      Within(text, p + |SignText(comma, ',')|, name.before, more);
      GapDelim(text, p, separator, false, comma, ',', name.before);
    }
  }

  lemma EndDelim(text: string, p: nat, isObject: bool, separator: bool, end: End)
    requires GoodEnd(isObject, separator, true, end) && StartsAt(text, p, RestText(isObject, [], end))
    ensures IsDelim(At(text, p))
  {
    EndLayout(text, p, isObject, end, p + |FrontText(end.comma, end.name)|);
    FrontDelim(text, p, separator, true, end.comma, end.name, end.space);
  }

  lemma ItemDelim(text: string, p: nat, isObject: bool, separator: bool, xs: seq<Item>, end: End)
    requires xs != [] && GoodFront(separator, true, false, xs[0].comma, xs[0].name, xs[0].space)
    requires StartsAt(text, p, RestText(isObject, xs, end))
    ensures IsDelim(At(text, p))
  {
    var a := p + |FrontText(xs[0].comma, xs[0].name)|;
    ItemLayout(text, p, isObject, xs, end, a, a + |xs[0].space| + |Text(xs[0].value)|);
    FrontDelim(text, p, separator, false, xs[0].comma, xs[0].name, xs[0].space);
  }

  // The rest of a bracket whose last token was a scalar starts with a delimiter.
  lemma RestDelim(text: string, p: nat, isObject: bool, separator: bool, xs: seq<Item>, end: End)
    requires GoodRest(isObject, separator, true, xs, end) && StartsAt(text, p, RestText(isObject, xs, end))
    ensures IsDelim(At(text, p))
  {
    if xs == [] {
      EndDelim(text, p, isObject, separator, end);
    } else {
      ItemDelim(text, p, isObject, separator, xs, end);
    }
  }

  // The bracket around the items takes one more member.
  function Grown(top: Frame, m: Member): Frame {
    top.(key := None, items := top.items + [m])
  }

  // The bracket of stack + [top] once its items are all read and it is closed.
  function Filled(xs: seq<Item>, stack: seq<Frame>, top: Frame, next: nat): Progress {
    Complete(List(top.isObject, top.items + ItemsValue(xs)), 0, next, stack)
  }

  // Parsing the text of d, whatever is open around it: d is complete, or a bracket too many was opened.
  lemma {:induction false} RunDoc(text: string, k: Ending, p: nat, w: string, d: Doc, stack: seq<Frame>,
                                  separator: bool, next: nat)
    requires Follows(text, k)
    requires Good(d, separator) && White(w) && Ready(stack) && |stack| <= JSON_STACK_SIZE && (stack == [] ==> separator)
    requires StartsAt(text, p, w + Text(d)) && next == p + |w| + |Text(d)|
    requires IsScalar(d) ==> IsDelim(At(text, next))
    ensures Arrives(k, More(p, stack, separator), |stack| + Depth(d), Complete(Value(d), 0, next, stack))
    decreases d, 1
  {
    if d.DList? {
      RunList(text, k, p, w, d, stack, separator, next);
    } else {
      CompleteReady(Value(d), p + |w|, next, stack);
      ScalarStep(text, k, p, w, d, p + |w|, next, stack, separator);
    }
  }

  lemma {:induction false} RunList(text: string, k: Ending, p: nat, w: string, d: Doc, stack: seq<Frame>,
                                   separator: bool, next: nat)
    requires Follows(text, k) && d.DList?
    requires GoodRest(d.isObject, separator, false, d.items, d.end)
    requires White(w) && Ready(stack) && |stack| <= JSON_STACK_SIZE && (stack == [] ==> separator)
    requires StartsAt(text, p, w + Text(d)) && next == p + |w| + |Text(d)|
    ensures Arrives(k, More(p, stack, separator), |stack| + 1 + DepthOf(d.items),
                    Complete(List(d.isObject, ItemsValue(d.items)), 0, next, stack))
    decreases d, 0
  {
    var top, q := Frame(d.isObject, None, []), p + |w| + 1;
    ListLayout(text, p, w, d, q);
    OpenStep(text, k, p, w, d.isObject, stack, separator);
    if |stack| < JSON_STACK_SIZE {
      assert top.items + ItemsValue(d.items) == ItemsValue(d.items);
      RunRest(text, k, q, d.items, d.end, stack, top, separator, false, next);
    }
  }

  lemma RunEnd(text: string, k: Ending, p: nat, end: End, stack: seq<Frame>, top: Frame, separator: bool, tight: bool,
               next: nat)
    requires Follows(text, k)
    requires GoodEnd(top.isObject, separator, tight, end) && top.key.None? && Ready(stack)
    requires StartsAt(text, p, RestText(top.isObject, [], end)) && next == p + |RestText(top.isObject, [], end)|
    ensures k(More(p, stack + [top], separator)) == k(Filled([], stack, top, next))
  {
    var a, named := p + |FrontText(end.comma, end.name)|, Named(top, end.name);
    var separated := Separated(separator, end.comma, end.name);
    EndLayout(text, p, top.isObject, end, a);
    FrontSteps(text, k, p, tight, true, end.comma, end.name, end.space, stack, top, separator);
    CloseStep(text, k, a, end.space, stack, named, separated);
    NothingMore(stack, top, end.name, next);
  }

  lemma NothingMore(stack: seq<Frame>, top: Frame, name: Name, next: nat)
    ensures Complete(List(top.isObject, Named(top, name).items), 0, next, stack) == Filled([], stack, top, next)
  {
    assert top.items + ItemsValue([]) == top.items;
  }

  // The items that are left in the innermost bracket, and its end.
  lemma {:induction false} RunRest(text: string, k: Ending, p: nat, xs: seq<Item>, end: End, stack: seq<Frame>,
                                   top: Frame, separator: bool, tight: bool, next: nat)
    requires Follows(text, k)
    requires GoodRest(top.isObject, separator, tight, xs, end)
    requires top.key.None? && Ready(stack) && |stack| < JSON_STACK_SIZE
    requires StartsAt(text, p, RestText(top.isObject, xs, end)) && next == p + |RestText(top.isObject, xs, end)|
    ensures Arrives(k, More(p, stack + [top], separator), |stack| + 1 + DepthOf(xs), Filled(xs, stack, top, next))
    decreases xs, 3
  {
    if xs == [] {
      RunEnd(text, k, p, end, stack, top, separator, tight, next);
    } else {
      var x, grown := xs[0], Grown(top, ItemValue(xs[0]));
      var a := p + |FrontText(x.comma, x.name)|;
      var q := a + |x.space| + |Text(x.value)|;
      ItemLayout(text, p, top.isObject, xs, end, a, q);
      if IsScalar(x.value) {
        RestDelim(text, q, top.isObject, false, xs[1..], end);
      }
      RunItem(text, k, p, x, stack, top, separator, tight, a, q);
      RunRest(text, k, q, xs[1..], end, stack, grown, false, IsScalar(x.value), next);
      OneMoreValue(xs, top.items);
    }
  }

  lemma OneMoreValue(xs: seq<Item>, items: seq<Member>)
    requires xs != []
    ensures (items + [ItemValue(xs[0])]) + ItemsValue(xs[1..]) == items + ItemsValue(xs)
  {
  }

  // An item from p on, its value with the white space before it from a on, up to next.
  predicate ItemAt(text: string, p: nat, isObject: bool, separator: bool, tight: bool, x: Item, a: nat, next: nat) {
    && GoodItem(isObject, separator, tight, x)
    && StartsAt(text, p, FrontText(x.comma, x.name)) && a == p + |FrontText(x.comma, x.name)|
    && StartsAt(text, a, x.space + Text(x.value)) && StartsAt(text, a, x.space)
    && next == a + |x.space| + |Text(x.value)| && (IsScalar(x.value) ==> IsDelim(At(text, next)))
  }

  lemma ItemFront(text: string, k: Ending, p: nat, x: Item, stack: seq<Frame>, top: Frame, separator: bool, tight: bool,
                  a: nat, next: nat)
    requires Follows(text, k) && ItemAt(text, p, top.isObject, separator, tight, x, a, next) && top.key.None?
    ensures k(More(p, stack + [top], separator))
         == k(More(a, stack + [Named(top, x.name)], Separated(separator, x.comma, x.name)))
  {
    FrontSteps(text, k, p, tight, false, x.comma, x.name, x.space, stack, top, separator);
  }

  lemma {:induction false} RunItem(text: string, k: Ending, p: nat, x: Item, stack: seq<Frame>, top: Frame,
                                   separator: bool, tight: bool, a: nat, next: nat)
    requires Follows(text, k) && ItemAt(text, p, top.isObject, separator, tight, x, a, next)
    requires top.key.None? && |stack| < JSON_STACK_SIZE
    ensures Arrives(k, More(p, stack + [top], separator), |stack| + 1 + Depth(x.value),
                    More(next, stack + [Grown(top, ItemValue(x))], false))
    decreases x, 3
  {
    var separated := Separated(separator, x.comma, x.name);
    ItemFront(text, k, p, x, stack, top, separator, tight, a, next);
    RunNamed(text, k, a, x, stack, top, separated, next);
    ArrivesFrom(k, More(p, stack + [top], separator), More(a, stack + [Named(top, x.name)], separated),
                |stack| + 1 + Depth(x.value), More(next, stack + [Grown(top, ItemValue(x))], false));
  }

  // The value of an item, behind its comma and key.
  lemma {:induction false} RunNamed(text: string, k: Ending, p: nat, x: Item, stack: seq<Frame>, top: Frame,
                                    separator: bool, next: nat)
    requires Follows(text, k) && |stack| < JSON_STACK_SIZE
    requires top.key.None? && x.name.Name? == top.isObject && Good(x.value, separator) && White(x.space)
    requires StartsAt(text, p, x.space + Text(x.value)) && next == p + |x.space| + |Text(x.value)|
    requires IsScalar(x.value) ==> IsDelim(At(text, next))
    ensures Arrives(k, More(p, stack + [Named(top, x.name)], separator), |stack| + 1 + Depth(x.value),
                    More(next, stack + [Grown(top, ItemValue(x))], false))
    decreases x, 2
  {
    Under(stack, Named(top, x.name));
    RunDoc(text, k, p, x.space, x.value, stack + [Named(top, x.name)], separator, next);
    ItemCompletes(x, stack, top, next);
  }

  lemma ItemCompletes(x: Item, stack: seq<Frame>, top: Frame, next: nat)
    requires top.key.None? && x.name.Name? == top.isObject
    ensures Complete(Value(x.value), 0, next, stack + [Named(top, x.name)])
         == More(next, stack + [Grown(top, ItemValue(x))], false)
  {
    Under(stack, Named(top, x.name));
  }
}
