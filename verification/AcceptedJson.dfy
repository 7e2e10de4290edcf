// The converse of WrittenJson: whatever json_parse accepts is the text of some Doc with that value, or a string that
// the end of the text cuts off.
module AcceptedJson {
  import opened GasonGrammar
  import opened GasonText
  import opened Options
  import opened WrittenJson

  // ---- Tokens ----

  lemma Joined(text: string, p: nat, q: nat, r: nat)
    requires p <= q <= r <= |text|
    ensures text[p..q] + text[q..r] == text[p..r]
  {
  }

  lemma Parts(text: string, p: nat, q: nat, r: nat, s: nat)
    requires p <= q <= r <= s <= |text|
    ensures text[p..s] == text[p..q] + text[q..r] + text[r..s]
  {
  }

  lemma Associates(a: string, b: string, c: string)
    ensures (a + b) + c == a + (b + c)
    ensures "" + a == a
  {
  }

  lemma {:induction false} SpaceRead(text: string, p: nat)
    requires p <= |text|
    ensures White(text[p..SkipSpace(text, p)])
    decreases |text| - p
  {
    if p < |text| && IsSpace(text[p]) {
      SpaceRead(text, p + 1);
      Joined(text, p, p + 1, SkipSpace(text, p));
    }
  }

  lemma {:induction false} DigitsRead(text: string, p: nat)
    requires p <= |text|
    ensures Digits(text[p..SkipDec(text, p)])
    decreases |text| - p
  {
    if p < |text| && IsDec(text[p]) {
      DigitsRead(text, p + 1);
      Joined(text, p, p + 1, SkipDec(text, p));
    }
  }

  lemma FractionRead(text: string, p: nat) returns (f: Fraction)
    requires p <= |text|
    ensures GoodFraction(f) && text[p..SkipFraction(text, p)] == FractionText(f)
    ensures f.Fraction? <==> At(text, p) == '.'
  {
    if At(text, p) == '.' {
      DigitsRead(text, p + 1);
      f := Fraction(text[p + 1..SkipDec(text, p + 1)]);
      Joined(text, p, p + 1, SkipDec(text, p + 1));
    } else {
      f := NoFraction;
    }
  }

  lemma ExponentRead(text: string, p: nat) returns (x: Exponent)
    requires p <= |text|
    ensures GoodExponent(x) && text[p..SkipExponent(text, p)] == ExponentText(x)
  {
    if At(text, p) == 'e' || At(text, p) == 'E' {
      var a := SkipSign(text, p + 1);
      DigitsRead(text, a);
      x := Exponent(text[p], text[p + 1..a], text[a..SkipDec(text, a)]);
      Joined(text, p, p + 1, a);
      Joined(text, p, a, SkipDec(text, a));
    } else {
      x := NoExponent;
    }
  }

  lemma NumberRead(text: string, p: nat) returns (d: Doc)
    requires p < |text| && (text[p] == '-' || IsDec(text[p])) && LexNumber(text, p).Scalar?
    ensures d.DNumber? && GoodNumber(d) && text[p..LexNumber(text, p).next] == NumberText(d)
    ensures LexNumber(text, p).value == Number(NumberText(d)) && IsDelim(At(text, LexNumber(text, p).next))
  {
    var a := SkipSign(text, p);
    var b := SkipDec(text, a);
    var c := SkipFraction(text, b);
    DigitsRead(text, a);
    var f := FractionRead(text, b);
    var x := ExponentRead(text, c);
    d := DNumber(text[p] == '-', text[a..b], f, x);
    assert text[p..a] == if d.minus then "-" else "";
    Joined(text, p, a, b);
    Joined(text, p, b, c);
    Joined(text, p, c, SkipExponent(text, c));
  }

  lemma {:induction false} HexRead(text: string, p: nat, n: nat)
    requires HexAt(text, p, n).Code? && n > 0
    ensures p + n <= |text| && forall i :: p <= i < p + n ==> IsHex(text[i])
  {
    if n > 1 {
      HexRead(text, p, n - 1);
    }
  }

  lemma UnicodeRead(text: string, p: nat) returns (x: Piece)
    requires HexAt(text, p + 2, 4).Code? && p < |text| && text[p] == '\\' && At(text, p + 1) == 'u'
    ensures GoodPiece(x) && p + 6 <= |text| && text[p..p + 6] == PieceText(x)
    ensures PieceValue(x) == Utf8(HexAt(text, p + 2, 4).value)
  {
    var d := text[p + 2..p + 6];
    HexRead(text, p + 2, 4);
    HexLexed(text, p + 2, d, 4);
    assert d[..4] == d;
    x := Unicode(d);
    Joined(text, p, p + 2, p + 6);
  }

  // The rest of a literal, as far as it was read.
  predicate Spelled(text: string, p: nat, l: Literal, s: seq<Piece>) {
    match l
    case Broken(_) => false
    case Closed(v, next) => v == PiecesValue(s) && p < next <= |text| && text[p..next] == PiecesText(s) + "\""
    case Open(v, next) => v == PiecesValue(s) && p <= next <= |text| && text[p..next] == PiecesText(s)
  }

  lemma {:induction false} PiecesRead(text: string, p: nat) returns (s: seq<Piece>)
    requires p <= |text| && !LexString(text, p).Broken?
    ensures GoodPieces(s) && Spelled(text, p, LexString(text, p), s)
    decreases |text| - p
  {
    var c, e := At(text, p), At(text, p + 1);
    if c == NUL || c == '"' {
      s := [];
    } else if c != '\\' {
      s := PieceAndMore(text, p, Raw(c));
    } else if ShortEscape(e).Some? {
      s := PieceAndMore(text, p, Short(e));
    } else {
      var x := UnicodeRead(text, p);
      s := PieceAndMore(text, p, x);
    }
  }

  lemma {:induction false} PieceAndMore(text: string, p: nat, x: Piece) returns (s: seq<Piece>)
    requires GoodPiece(x) && p + |PieceText(x)| <= |text| && text[p..p + |PieceText(x)|] == PieceText(x)
    requires LexString(text, p) == Prepend(PieceValue(x), LexString(text, p + |PieceText(x)|))
    requires !LexString(text, p).Broken?
    ensures GoodPieces(s) && Spelled(text, p, LexString(text, p), s)
    decreases |text| - p, 0
  {
    var q := p + |PieceText(x)|;
    var more := PiecesRead(text, q);
    s := [x] + more;
    assert s[1..] == more;
    var l := LexString(text, q);
    SpelledOn(text, p, q, l, x, more, s);
  }

  lemma SpelledOn(text: string, p: nat, q: nat, l: Literal, x: Piece, more: seq<Piece>, s: seq<Piece>)
    requires p < q <= |text| && text[p..q] == PieceText(x) && Spelled(text, q, l, more)
    requires s != [] && s[0] == x && s[1..] == more
    ensures Spelled(text, p, Prepend(PieceValue(x), l), s)
  {
    Joined(text, p, q, l.next);
    Associates(PieceText(x), PiecesText(more), "\"");
  }

  lemma WordRead(text: string, p: nat, rest: string, v: Json)
    requires p < |text| && LexWord(text, p, rest, v).Scalar?
    ensures text[p..LexWord(text, p, rest, v).next] == [text[p]] + rest
    ensures LexWord(text, p, rest, v).value == v && IsDelim(At(text, LexWord(text, p, rest, v).next))
  {
    SliceOf(text, p + 1, rest);
    Joined(text, p, p + 1, p + 1 + |rest|);
  }

  predicate IsOpen(text: string, p: nat)
    requires p < |text|
  {
    text[p] == '"' && LexString(text, p + 1).Open?
  }

  // The token at p is a scalar of the grammar.
  ghost predicate ScalarIs(text: string, p: nat, v: Json, next: nat, d: Doc) {
    && IsScalar(d) && Good(d, true) && Value(d) == v
    && p < next <= |text| && text[p..next] == Text(d) && IsDelim(At(text, next))
  }

  lemma ClosedRead(text: string, p: nat, v: Json, next: nat) returns (s: seq<Piece>)
    requires p < |text| && text[p] == '"' && LexQuoted(text, p) == Scalar(v, next) && !IsOpen(text, p)
    ensures GoodPieces(s) && v == String(PiecesValue(s)) && IsDelim(At(text, next))
    ensures p + 1 < next <= |text| && text[p + 1..next] == PiecesText(s) + "\""
  {
    s := PiecesRead(text, p + 1);
  }

  lemma QuotedText(s: seq<Piece>)
    ensures "\"" + (PiecesText(s) + "\"") == Quoted(s)
  {
    Associates("\"", PiecesText(s), "\"");
  }

  lemma StringRead(text: string, p: nat, v: Json, next: nat) returns (d: Doc)
    requires p < |text| && text[p] == '"' && LexQuoted(text, p) == Scalar(v, next) && !IsOpen(text, p)
    ensures d.DString? && ScalarIs(text, p, v, next, d)
  {
    var s := ClosedRead(text, p, v, next);
    d := DString(s);
    QuoteFirst(text, p, next);
    QuotedText(s);
  }

  lemma ScalarRead(text: string, p: nat, v: Json, next: nat) returns (d: Doc)
    requires p < |text| && StartsScalar(text[p]) && LexScalar(text, p) == Scalar(v, next) && !IsOpen(text, p)
    ensures ScalarIs(text, p, v, next, d)
  {
    match text[p]
    case '"' =>
      d := StringRead(text, p, v, next);
    case 't' =>
      WordRead(text, p, "rue", Bool(true));
      d := DBool(true);
    case 'f' =>
      WordRead(text, p, "alse", Bool(false));
      d := DBool(false);
    case 'n' =>
      WordRead(text, p, "ull", Null);
      d := DNull;
    case _ =>
      d := NumberRead(text, p);
  }

  // ---- Rounds of an accepting run ----

  // a is what one round comes to that does not fail, inside some bracket and with its token at p.
  predicate Advances(text: string, p: nat, stack: seq<Frame>, separator: bool, a: Progress)
    requires p < |text| && stack != []
  {
    var c, top, outer := text[p], stack[|stack| - 1], stack[..|stack| - 1];
    if StartsScalar(c) then
      LexScalar(text, p).Scalar? && a == Complete(LexScalar(text, p).value, p, LexScalar(text, p).next, stack)
    else if c == ']' || c == '}' then
      top.isObject == (c == '}') && a == Complete(List(top.isObject, top.items), p, p + 1, outer)
    else if c == '[' || c == '{' then
      |stack| < JSON_STACK_SIZE && a == More(p + 1, stack + [Frame(c == '{', None, [])], separator)
    else
      c == (if top.key.None? then ',' else ':') && !separator && a == More(p + 1, stack, true)
  }

  lemma StepAdvances(text: string, pos: nat, stack: seq<Frame>, separator: bool)
    requires pos <= |text| && 0 < |stack| <= JSON_STACK_SIZE
    requires var a := Step(text, pos, stack, separator); a.Stop? ==> a.outcome.Parsed?
    ensures pos <= SkipSpace(text, pos) < |text|
    ensures Advances(text, SkipSpace(text, pos), stack, separator, Step(text, pos, stack, separator))
  {
  }

  // One round of a run that ends with a value.
  lemma OneRound(text: string, k: Ending, pos: nat, stack: seq<Frame>, separator: bool) returns (p: nat, a: Progress)
    requires Follows(text, k) && pos <= |text| && 0 < |stack| <= JSON_STACK_SIZE
    requires k(More(pos, stack, separator)).Parsed?
    ensures pos <= p < |text| && White(text[pos..p]) && Advances(text, p, stack, separator, a)
    ensures k(More(pos, stack, separator)) == k(a)
  {
    p := SkipSpace(text, pos);
    a := Step(text, pos, stack, separator);
    SpaceRead(text, pos);
    Rounds(text, k, pos, stack, separator, a);
    Stopped(text, k, a);
    StepAdvances(text, pos, stack, separator);
  }

  lemma Stopped(text: string, k: Ending, a: Progress)
    requires Follows(text, k)
    ensures a.Stop? ==> k(a) == a.outcome
  {
    if a.Stop? {
      assert Ends(text, a, a.outcome);
    }
  }

  // Behind a string that the end of the text cuts off nothing is read any more.
  lemma NotOpen(text: string, k: Ending, p: nat, v: Json, next: nat, stack: seq<Frame>)
    requires Follows(text, k) && p < |text| && StartsScalar(text[p]) && LexScalar(text, p) == Scalar(v, next)
    requires stack != [] && k(Complete(v, p, next, stack)).Parsed?
    ensures !IsOpen(text, p)
  {
    if IsOpen(text, p) {
      var a := Complete(v, p, next, stack);
      Stopped(text, k, a);
      Rounds(text, k, next, a.stack, a.separator, Stop(Failed(BreakingBad, next)));
      Stopped(text, k, Stop(Failed(BreakingBad, next)));
    }
  }

  // A bracket as the value of something that goes on.
  lemma ListGoesOn(text: string, k: Ending, v: Json, p: nat, next: nat, stack: seq<Frame>)
    requires Follows(text, k) && v.List? && k(Complete(v, p, next, stack)).Parsed?
    ensures Ready(stack)
  {
    Stopped(text, k, Complete(v, p, next, stack));
  }

  // ---- Brackets ----

  // What stands between a key and the item after it, or the closing bracket.
  datatype AfterKey =
    | NoValue(colon: Sign, space: string)
    | Valued(colon: Sign, space: string, value: Doc, xs: seq<Item>, end: End)

  predicate GoodAfter(a: AfterKey, separator: bool, tight: bool) {
    match a
    case NoValue(colon, space) => GoodGap(separator, false, colon, space)
    case Valued(colon, space, value, xs, end) =>
      && GoodGap(separator, tight, colon, space) && Good(value, separator || colon.Sign?)
      && GoodRest(true, false, IsScalar(value), xs, end)
  }

  function AfterText(a: AfterKey): string {
    match a
    case NoValue(colon, space) => SignText(colon, ':') + (space + "}")
    case Valued(colon, space, value, xs, end) =>
      SignText(colon, ':') + (space + Text(value) + RestText(true, xs, end))
  }

  function AfterItems(a: AfterKey, key: string): seq<Member> {
    match a
    case NoValue(_, _) => []
    case Valued(_, _, value, xs, _) => [Member(key, Value(value))] + ItemsValue(xs)
  }

  function AfterDepth(a: AfterKey): nat {
    match a
    case NoValue(_, _) => 0
    case Valued(_, _, value, xs, _) => Max(Depth(value), DepthOf(xs))
  }

  // The bracket open at pos up to where it is closed, at q.
  ghost predicate RestIs(text: string, k: Ending, pos: nat, stack: seq<Frame>, separator: bool, tight: bool,
                         xs: seq<Item>, end: End, q: nat)
    requires stack != []
  {
    var top, outer := stack[|stack| - 1], stack[..|stack| - 1];
    && pos < q <= |text| && GoodRest(top.isObject, separator, tight, xs, end)
    && text[pos..q] == RestText(top.isObject, xs, end)
    && |stack| + DepthOf(xs) <= JSON_STACK_SIZE
    && k(More(pos, stack, separator)) == k(Complete(List(top.isObject, top.items + ItemsValue(xs)), q - 1, q, outer))
  }

  ghost predicate AfterIs(text: string, k: Ending, pos: nat, stack: seq<Frame>, separator: bool, tight: bool,
                          a: AfterKey, q: nat)
    requires stack != [] && stack[|stack| - 1].key.Some?
  {
    var top, outer := stack[|stack| - 1], stack[..|stack| - 1];
    && pos < q <= |text| && GoodAfter(a, separator, tight)
    && text[pos..q] == AfterText(a)
    && |stack| + AfterDepth(a) <= JSON_STACK_SIZE
    && k(More(pos, stack, separator))
       == k(Complete(List(true, top.items + AfterItems(a, top.key.value)), q - 1, q, outer))
  }

  // What is read from pos on, in a bracket that waits for an item.
  lemma {:induction false} RestRead(text: string, k: Ending, pos: nat, stack: seq<Frame>, separator: bool, tight: bool)
    returns (xs: seq<Item>, end: End, q: nat)
    requires Follows(text, k) && pos <= |text| && 0 < |stack| <= JSON_STACK_SIZE && stack[|stack| - 1].key.None?
    requires k(More(pos, stack, separator)).Parsed? && (tight ==> IsDelim(At(text, pos)))
    ensures RestIs(text, k, pos, stack, separator, tight, xs, end, q)
    decreases |text| - pos, 2
  {
    var p, a := OneRound(text, k, pos, stack, separator);
    var c, top, outer := text[p], stack[|stack| - 1], stack[..|stack| - 1];
    if StartsScalar(c) {
      if top.isObject {
        xs, end, q := KeyRead(text, k, pos, p, stack, separator, tight, a);
      } else {
        xs, end, q := ElementRead(text, k, pos, p, stack, separator, tight, a);
      }
    } else if c == ']' || c == '}' {
      xs, end, q := [], End(NoSign, NoName, text[pos..p]), p + 1;
      Joined(text, pos, p, q);
      assert top.items + ItemsValue([]) == top.items;
    } else if c == '[' || c == '{' {
      xs, end, q := NestedRead(text, k, pos, p, stack, separator, tight, a);
    } else {
      xs, end, q := CommaRead(text, k, pos, p, stack, separator, tight, a);
    }
  }

  lemma {:induction false} CommaRead(text: string, k: Ending, pos: nat, p: nat, stack: seq<Frame>, separator: bool,
                                     tight: bool, a: Progress)
    returns (xs: seq<Item>, end: End, q: nat)
    requires Follows(text, k) && pos <= p < |text| && 0 < |stack| <= JSON_STACK_SIZE && stack[|stack| - 1].key.None?
    requires White(text[pos..p]) && text[p] == ',' && !separator && a == More(p + 1, stack, true)
    requires k(More(pos, stack, separator)) == k(a) && k(a).Parsed?
    ensures RestIs(text, k, pos, stack, separator, tight, xs, end, q)
    decreases |text| - pos, 1
  {
    var top := stack[|stack| - 1];
    var ys, e, n := RestRead(text, k, p + 1, stack, true, false);
    xs, end := CommaFirst(top.isObject, tight, text[pos..p], ys, e);
    q := n;
    SignThenRest(text, pos, p, q);
    assert top.items + ItemsValue(xs) == top.items + ItemsValue(ys);
  }

  lemma SignThenRest(text: string, pos: nat, p: nat, q: nat)
    requires pos <= p < q <= |text|
    ensures text[pos..q] == text[pos..p] + [text[p]] + text[p + 1..q]
  {
  }

  // One comma may be put in front of a rest that starts without one.
  lemma CommaFirst(isObject: bool, tight: bool, w: string, xs: seq<Item>, end: End) returns (ys: seq<Item>, e: End)
    requires GoodRest(isObject, true, false, xs, end) && White(w)
    ensures GoodRest(isObject, false, tight, ys, e) && ItemsValue(ys) == ItemsValue(xs) && DepthOf(ys) == DepthOf(xs)
    ensures RestText(isObject, ys, e) == (w + [',']) + RestText(isObject, xs, end)
  {
    if xs == [] {
      ys, e := xs, end.(comma := Sign(w));
      CommaText(w, end.name, end.space + CloseBracket(isObject));
    } else {
      ys, e := [xs[0].(comma := Sign(w))] + xs[1..], end;
      CommaText(w, xs[0].name, xs[0].space + Text(xs[0].value) + RestText(isObject, xs[1..], end));
      CommaItem(isObject, tight, w, xs[0]);
      assert ys[1..] == xs[1..];
    }
  }

  lemma CommaText(w: string, name: Name, more: string)
    ensures FrontText(Sign(w), name) + more == (w + [',']) + (FrontText(NoSign, name) + more)
  {
    Associates(NameText(name), "", "");
    Associates(w + [','], NameText(name), more);
  }

  lemma CommaItem(isObject: bool, tight: bool, w: string, x: Item)
    requires GoodItem(isObject, true, false, x) && White(w)
    ensures x.comma == NoSign && GoodItem(isObject, false, tight, x.(comma := Sign(w)))
  {
  }

  // A value in an array, at p and up to m; and what stands behind it.
  lemma {:induction false} ElementThenRest(text: string, k: Ending, pos: nat, p: nat, m: nat, stack: seq<Frame>,
                                           separator: bool, tight: bool, d: Doc)
    returns (xs: seq<Item>, end: End, q: nat)
    requires Follows(text, k) && pos <= p < m <= |text| && 0 < |stack| && |stack| + Depth(d) <= JSON_STACK_SIZE
    requires !stack[|stack| - 1].isObject && stack[|stack| - 1].key.None?
    requires White(text[pos..p]) && (tight ==> pos < p) && Good(d, separator) && text[p..m] == Text(d)
    requires IsScalar(d) ==> IsDelim(At(text, m))
    requires var grown := Grown(stack[|stack| - 1], Member("", Value(d)));
      k(More(pos, stack, separator)) == k(More(m, stack[..|stack| - 1] + [grown], false))
    requires k(More(pos, stack, separator)).Parsed?
    ensures RestIs(text, k, pos, stack, separator, tight, xs, end, q)
    decreases |text| - pos, 0
  {
    var top, outer := stack[|stack| - 1], stack[..|stack| - 1];
    var grown := Grown(top, Member("", Value(d)));
    var more, e, n := RestRead(text, k, m, outer + [grown], false, IsScalar(d));
    assert (outer + [grown])[..|outer|] == outer;
    var x := Item(NoSign, NoName, text[pos..p], d);
    xs, end, q := [x] + more, e, n;
    assert xs[1..] == more;
    Parts(text, pos, p, m, q);
    ElementText(x, more, end);
    OneMoreValue(xs, top.items);
  }

  lemma ElementText(x: Item, more: seq<Item>, end: End)
    requires x.comma.NoSign? && x.name.NoName?
    ensures RestText(false, [x] + more, end) == x.space + Text(x.value) + RestText(false, more, end)
  {
    assert ([x] + more)[1..] == more;
    assert FrontText(x.comma, x.name) == "";
    Associates(x.space + Text(x.value) + RestText(false, more, end), "", "");
  }

  lemma {:induction false} ElementRead(text: string, k: Ending, pos: nat, p: nat, stack: seq<Frame>, separator: bool,
                                       tight: bool, a: Progress)
    returns (xs: seq<Item>, end: End, q: nat)
    requires Follows(text, k) && pos <= p < |text| && 0 < |stack| <= JSON_STACK_SIZE
    requires !stack[|stack| - 1].isObject && stack[|stack| - 1].key.None?
    requires White(text[pos..p]) && StartsScalar(text[p]) && Advances(text, p, stack, separator, a)
    requires k(More(pos, stack, separator)) == k(a) && k(a).Parsed? && (tight ==> IsDelim(At(text, pos)))
    ensures RestIs(text, k, pos, stack, separator, tight, xs, end, q)
    decreases |text| - pos, 1
  {
    var v, m := LexScalar(text, p).value, LexScalar(text, p).next;
    NotOpen(text, k, p, v, m, stack);
    var d := ScalarRead(text, p, v, m);
    xs, end, q := ElementThenRest(text, k, pos, p, m, stack, separator, tight, d);
  }

  lemma {:induction false} NestedRead(text: string, k: Ending, pos: nat, p: nat, stack: seq<Frame>, separator: bool,
                                      tight: bool, a: Progress)
    returns (xs: seq<Item>, end: End, q: nat)
    requires Follows(text, k) && pos <= p < |text| && 0 < |stack| <= JSON_STACK_SIZE && stack[|stack| - 1].key.None?
    requires White(text[pos..p]) && (text[p] == '[' || text[p] == '{') && Advances(text, p, stack, separator, a)
    requires k(More(pos, stack, separator)) == k(a) && k(a).Parsed? && (tight ==> IsDelim(At(text, pos)))
    ensures RestIs(text, k, pos, stack, separator, tight, xs, end, q)
    decreases |text| - pos, 1
  {
    var d, m := ListRead(text, k, p, stack, separator);
    ListGoesOn(text, k, Value(d), m - 1, m, stack);
    xs, end, q := ElementThenRest(text, k, pos, p, m, stack, separator, tight, d);
  }

  // A whole bracket, from p on.
  lemma {:induction false} ListRead(text: string, k: Ending, p: nat, stack: seq<Frame>, separator: bool)
    returns (d: Doc, m: nat)
    requires Follows(text, k) && p < |text| && |stack| < JSON_STACK_SIZE && (text[p] == '[' || text[p] == '{')
    requires k(More(p + 1, stack + [Frame(text[p] == '{', None, [])], separator)).Parsed?
    ensures d.DList? && Good(d, separator) && p < m <= |text| && text[p..m] == Text(d)
    ensures |stack| + Depth(d) <= JSON_STACK_SIZE
    ensures k(More(p + 1, stack + [Frame(text[p] == '{', None, [])], separator))
         == k(Complete(Value(d), m - 1, m, stack))
    decreases |text| - p, 0
  {
    var top := Frame(text[p] == '{', None, []);
    var xs, end, q := RestRead(text, k, p + 1, stack + [top], separator, false);
    d, m := DList(top.isObject, xs, end), q;
    assert (stack + [top])[..|stack|] == stack;
    assert top.items + ItemsValue(xs) == ItemsValue(xs);
    SignThenRest(text, p, p, m);
    assert text[p..p] + [text[p]] == OpenBracket(top.isObject);
  }

  // ---- Keys ----

  // What is read from pos on, behind a key.
  lemma {:induction false} AfterRead(text: string, k: Ending, pos: nat, stack: seq<Frame>, separator: bool, tight: bool)
    returns (a: AfterKey, q: nat)
    requires Follows(text, k) && pos <= |text| && 0 < |stack| <= JSON_STACK_SIZE
    requires stack[|stack| - 1].isObject && stack[|stack| - 1].key.Some?
    requires k(More(pos, stack, separator)).Parsed? && (tight ==> IsDelim(At(text, pos)))
    ensures AfterIs(text, k, pos, stack, separator, tight, a, q)
    decreases |text| - pos, 2
  {
    var p, b := OneRound(text, k, pos, stack, separator);
    var c, top := text[p], stack[|stack| - 1];
    if StartsScalar(c) {
      var v, m := LexScalar(text, p).value, LexScalar(text, p).next;
      NotOpen(text, k, p, v, m, stack);
      var d := ScalarRead(text, p, v, m);
      a, q := ValueThenAfter(text, k, pos, p, m, stack, separator, tight, d);
    } else if c == ']' || c == '}' {
      a, q := NoValue(NoSign, text[pos..p]), p + 1;
      SignThenRest(text, pos, p, q);
      assert text[q..q] == "" && [c] == "}";
      assert top.items + [] == top.items;
    } else if c == '[' || c == '{' {
      var d, m := ListRead(text, k, p, stack, separator);
      a, q := ValueThenAfter(text, k, pos, p, m, stack, separator, tight, d);
    } else {
      a, q := ColonRead(text, k, pos, p, stack, separator, tight, b);
    }
  }

  lemma {:induction false} ColonRead(text: string, k: Ending, pos: nat, p: nat, stack: seq<Frame>, separator: bool,
                                     tight: bool, b: Progress)
    returns (a: AfterKey, q: nat)
    requires Follows(text, k) && pos <= p < |text| && 0 < |stack| <= JSON_STACK_SIZE
    requires stack[|stack| - 1].isObject && stack[|stack| - 1].key.Some?
    requires White(text[pos..p]) && text[p] == ':' && !separator && b == More(p + 1, stack, true)
    requires k(More(pos, stack, separator)) == k(b) && k(b).Parsed?
    ensures AfterIs(text, k, pos, stack, separator, tight, a, q)
    decreases |text| - pos, 1
  {
    var w := text[pos..p];
    var more, n := AfterRead(text, k, p + 1, stack, true, false);
    a, q := more.(colon := Sign(w)), n;
    SignThenRest(text, pos, p, q);
    ColonText(w, if more.NoValue? then more.space + "}"
              else more.space + Text(more.value) + RestText(true, more.xs, more.end));
  }

  lemma ColonText(w: string, more: string)
    ensures SignText(Sign(w), ':') + more == (w + [':']) + (SignText(NoSign, ':') + more)
  {
    Associates(more, "", "");
  }

  lemma {:induction false} ValueThenAfter(text: string, k: Ending, pos: nat, p: nat, m: nat, stack: seq<Frame>,
                                          separator: bool, tight: bool, d: Doc)
    returns (a: AfterKey, q: nat)
    requires Follows(text, k) && pos <= p < m <= |text| && 0 < |stack| && |stack| + Depth(d) <= JSON_STACK_SIZE
    requires stack[|stack| - 1].isObject && stack[|stack| - 1].key.Some?
    requires White(text[pos..p]) && (tight ==> pos < p) && Good(d, separator) && text[p..m] == Text(d)
    requires IsScalar(d) ==> IsDelim(At(text, m))
    requires var grown := Grown(stack[|stack| - 1], Member(stack[|stack| - 1].key.value, Value(d)));
      k(More(pos, stack, separator)) == k(More(m, stack[..|stack| - 1] + [grown], false))
    requires k(More(pos, stack, separator)).Parsed?
    ensures AfterIs(text, k, pos, stack, separator, tight, a, q)
    decreases |text| - pos, 0
  {
    var top, outer := stack[|stack| - 1], stack[..|stack| - 1];
    var grown := Grown(top, Member(top.key.value, Value(d)));
    var xs, end, n := RestRead(text, k, m, outer + [grown], false, IsScalar(d));
    assert (outer + [grown])[..|outer|] == outer;
    a, q := Valued(NoSign, text[pos..p], d, xs, end), n;
    Parts(text, pos, p, m, q);
    ValuedText(text[pos..p], d, xs, end, top.items, top.key.value);
  }

  lemma ValuedText(space: string, d: Doc, xs: seq<Item>, end: End, items: seq<Member>, key: string)
    ensures AfterText(Valued(NoSign, space, d, xs, end)) == space + Text(d) + RestText(true, xs, end)
    ensures items + AfterItems(Valued(NoSign, space, d, xs, end), key)
         == items + [Member(key, Value(d))] + ItemsValue(xs)
  {
    Associates(space + Text(d) + RestText(true, xs, end), "", "");
  }

  // A scalar where a key belongs is a string, or it would be refused.
  lemma KeyToken(text: string, k: Ending, p: nat, stack: seq<Frame>, separator: bool, b: Progress)
    returns (key: seq<Piece>, m: nat)
    requires Follows(text, k) && p < |text| && 0 < |stack|
    requires stack[|stack| - 1].isObject && stack[|stack| - 1].key.None?
    requires StartsScalar(text[p]) && Advances(text, p, stack, separator, b) && k(b).Parsed?
    ensures p < m <= |text| && GoodPieces(key) && text[p..m] == Quoted(key) && IsDelim(At(text, m))
    ensures b == More(m, stack[..|stack| - 1] + [stack[|stack| - 1].(key := Some(PiecesValue(key)))], false)
  {
    var v := LexScalar(text, p).value;
    m := LexScalar(text, p).next;
    NotOpen(text, k, p, v, m, stack);
    var d := ScalarRead(text, p, v, m);
    Stopped(text, k, b);
    key := StringDoc(d, v);
  }

  lemma StringDoc(d: Doc, v: Json) returns (key: seq<Piece>)
    requires Value(d) == v && v.String? && Good(d, true)
    ensures d == DString(key) && GoodPieces(key) && v == String(PiecesValue(key)) && Text(d) == Quoted(key)
  {
    key := d.pieces;
  }

  // Where white space has to separate, there is some in front of a token that is no delimiter.
  lemma NotTight(text: string, pos: nat, p: nat, tight: bool)
    requires pos <= p < |text| && (tight ==> IsDelim(At(text, pos))) && (StartsScalar(text[p]) || text[p] in "[{")
    ensures tight ==> text[pos..p] != ""
  {
  }

  // A key, at p, and what follows it up to the end of the bracket.
  lemma {:induction false} KeyRead(text: string, k: Ending, pos: nat, p: nat, stack: seq<Frame>, separator: bool,
                                   tight: bool, b: Progress)
    returns (xs: seq<Item>, end: End, q: nat)
    requires Follows(text, k) && pos <= p < |text| && 0 < |stack| <= JSON_STACK_SIZE
    requires stack[|stack| - 1].isObject && stack[|stack| - 1].key.None?
    requires White(text[pos..p]) && StartsScalar(text[p]) && Advances(text, p, stack, separator, b)
    requires k(More(pos, stack, separator)) == k(b) && k(b).Parsed? && (tight ==> IsDelim(At(text, pos)))
    ensures RestIs(text, k, pos, stack, separator, tight, xs, end, q)
    decreases |text| - pos, 1
  {
    var top, outer := stack[|stack| - 1], stack[..|stack| - 1];
    NotTight(text, pos, p, tight);
    var key, m := KeyToken(text, k, p, stack, separator, b);
    var named := top.(key := Some(PiecesValue(key)));
    var a, n := AfterRead(text, k, m, outer + [named], false, true);
    assert (outer + [named])[..|outer|] == outer;
    q := n;
    xs, end := WithKey(separator, tight, text[pos..p], key, a);
    Parts(text, pos, p, m, q);
  }

  // The rest of the bracket as it is with the key in front.
  lemma WithKey(separator: bool, tight: bool, w: string, key: seq<Piece>, a: AfterKey) returns (xs: seq<Item>, end: End)
    requires GoodAfter(a, false, true) && White(w) && (tight ==> w != "") && GoodPieces(key)
    ensures GoodRest(true, separator, tight, xs, end)
    ensures RestText(true, xs, end) == w + Quoted(key) + AfterText(a)
    ensures ItemsValue(xs) == AfterItems(a, PiecesValue(key)) && DepthOf(xs) == AfterDepth(a)
  {
    var name := Name(w, key, a.colon);
    match a
    case NoValue(colon, space) =>
      xs, end := [], End(NoSign, name, space);
      KeyText(w, key, colon, space + "}");
    case Valued(colon, space, value, more, e) =>
      xs, end := [Item(NoSign, name, space, value)] + more, e;
      assert xs[1..] == more;
      KeyText(w, key, colon, space + Text(value) + RestText(true, more, e));
  }

  lemma KeyText(w: string, key: seq<Piece>, colon: Sign, more: string)
    ensures FrontText(NoSign, Name(w, key, colon)) + more == (w + Quoted(key)) + (SignText(colon, ':') + more)
  {
    var sign := SignText(colon, ':');
    Associates(w + (Quoted(key) + sign), "", "");
    Associates(w, Quoted(key) + sign, more);
    Associates(Quoted(key), sign, more);
    Associates(w, Quoted(key), sign + more);
  }

  // ---- The whole text ----

  // v is the value of the Doc d that stands in front, and n is where it ends.
  predicate WrittenAs(text: string, v: Json, n: nat, w: string, d: Doc) {
    && White(w) && Good(d, true) && Depth(d) <= 32 && v == Value(d)
    && n == |w| + |Text(d)| && StartsAt(text, 0, w + Text(d)) && (IsScalar(d) ==> Delimits(At(text, n)))
  }

  // What stays of the text of a string behind what was decoded in place.
  function Stale(s: seq<Piece>): string {
    PiecesText(s)[|PiecesValue(s)|..]
  }

  // The text ends, at n, inside a string literal. What was decoded stands in front of the bytes it left as they were.
  predicate CutOffAs(text: string, v: Json, n: nat, w: string, s: seq<Piece>) {
    && White(w) && GoodPieces(s) && v == String(PiecesValue(s) + Stale(s))
    && n == |w| + 1 + |PiecesText(s)| && StartsAt(text, 0, w + ("\"" + PiecesText(s))) && At(text, n) == NUL
  }

  ghost predicate Accepts(text: string, v: Json, n: nat) {
    (exists w, d :: WrittenAs(text, v, n, w, d)) || (exists w, s :: CutOffAs(text, v, n, w, s))
  }

  lemma AcceptedIsWritten(text: string, v: Json, n: nat)
    requires Parse(text) == Parsed(v, n)
    ensures Accepts(text, v, n)
  {
    var p, c := SkipSpace(text, 0), At(text, SkipSpace(text, 0));
    SpaceRead(text, 0);
    if StartsScalar(c) {
      TopScalar(text, v, n, p);
    } else {
      TopList(text, v, n, p);
    }
  }

  lemma TopScalar(text: string, v: Json, n: nat, p: nat)
    requires Parse(text) == Parsed(v, n) && p == SkipSpace(text, 0) && White(text[..p]) && StartsScalar(At(text, p))
    ensures Accepts(text, v, n)
  {
    TopToken(text, v, n, p);
    if IsOpen(text, p) {
      TopCutOff(text, v, n, p);
    } else {
      var d := ScalarRead(text, p, v, n);
      Fronts(text, p, n);
      assert WrittenAs(text, v, n, text[..p], d);
    }
  }

  lemma TopToken(text: string, v: Json, n: nat, p: nat)
    requires Parse(text) == Parsed(v, n) && p == SkipSpace(text, 0) && StartsScalar(At(text, p))
    ensures LexScalar(text, p) == Scalar(v, n)
  {
  }

  lemma Fronts(text: string, p: nat, n: nat)
    requires p <= n <= |text|
    ensures StartsAt(text, 0, text[..p] + text[p..n])
  {
  }

  lemma TopCutOff(text: string, v: Json, n: nat, p: nat)
    requires p < |text| && White(text[..p]) && IsOpen(text, p) && LexQuoted(text, p) == Scalar(v, n)
    ensures Accepts(text, v, n)
  {
    var s := OpenRead(text, p, v, n);
    Fronts(text, p, n);
    assert CutOffAs(text, v, n, text[..p], s);
  }

  lemma OpenRead(text: string, p: nat, v: Json, n: nat) returns (s: seq<Piece>)
    requires p < |text| && IsOpen(text, p) && LexQuoted(text, p) == Scalar(v, n)
    ensures GoodPieces(s) && v == String(PiecesValue(s) + Stale(s))
    ensures p < n <= |text| && At(text, n) == NUL && text[p..n] == "\"" + PiecesText(s)
  {
    s := PiecesRead(text, p + 1);
    StaleBytes(text, p + 1, n, s);
    QuoteFirst(text, p, n);
  }

  lemma QuoteFirst(text: string, p: nat, n: nat)
    requires p < n <= |text| && text[p] == '"'
    ensures text[p..n] == "\"" + text[p + 1..n]
  {
  }

  lemma StaleBytes(text: string, p: nat, n: nat, s: seq<Piece>)
    requires p <= n <= |text| && text[p..n] == PiecesText(s)
    ensures text[p + |PiecesValue(s)|..n] == Stale(s)
  {
  }

  lemma TopList(text: string, v: Json, n: nat, p: nat)
    requires Parse(text) == Parsed(v, n) && p == SkipSpace(text, 0) && White(text[..p]) && !StartsScalar(At(text, p))
    ensures Accepts(text, v, n)
  {
    var k := EndingOf(text);
    EndingFollows(text);
    var top := Frame(text[p] == '{', None, []);
    assert Step(text, 0, [], true) == More(p + 1, [top], true);
    Rounds(text, k, 0, [], true, More(p + 1, [top], true));
    assert [] + [top] == [top];
    var d, m := ListRead(text, k, p, [], true);
    Stopped(text, k, Complete(Value(d), m - 1, m, []));
    Fronts(text, p, n);
    assert WrittenAs(text, v, n, text[..p], d);
  }
}
