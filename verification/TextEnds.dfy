// When json_parse reads on behind the terminating NUL.
module TextEnds {
  import opened AcceptedJson
  import opened GasonGrammar
  import opened GasonText
  import opened Options
  import opened WrittenJson

  // ---- A scan over quotes and backslashes ----

  // Whether the end of t is inside a string literal, where inside says whether i is.
  predicate EndsInside(t: string, i: nat, inside: bool)
    decreases |t| - i
  {
    if i >= |t| then inside
    else if inside && t[i] == '\\' then EndsInside(t, i + 2, true)
    else EndsInside(t, i + 1, inside != (t[i] == '"'))
  }

  predicate InString(t: string) {
    EndsInside(t, 0, false)
  }

  predicate Plain(c: char) {
    c != '"' && c != '\\'
  }

  lemma {:induction false} PlainScan(t: string, p: nat, q: nat, inside: bool)
    requires p <= q <= |t| && forall i :: p <= i < q ==> Plain(t[i])
    ensures EndsInside(t, p, inside) == EndsInside(t, q, inside)
    decreases q - p
  {
    if p < q {
      PlainScan(t, p + 1, q, inside);
    }
  }

  lemma {:induction false} SpaceScan(t: string, p: nat)
    requires p <= |t|
    ensures EndsInside(t, p, false) == EndsInside(t, SkipSpace(t, p), false)
    decreases |t| - p
  {
    if p < |t| && IsSpace(t[p]) {
      SpaceScan(t, p + 1);
    }
  }

  lemma {:induction false} DecScan(t: string, p: nat)
    requires p <= |t|
    ensures EndsInside(t, p, false) == EndsInside(t, SkipDec(t, p), false)
    decreases |t| - p
  {
    if p < |t| && IsDec(t[p]) {
      DecScan(t, p + 1);
    }
  }

  lemma NumberScan(t: string, p: nat)
    requires p <= |t|
    ensures EndsInside(t, p, false) == EndsInside(t, NumberEnd(t, p), false)
  {
    var a := SkipSign(t, p);
    var b := SkipDec(t, a);
    var c := SkipFraction(t, b);
    PlainScan(t, p, a, false);
    DecScan(t, a);
    if At(t, b) == '.' {
      DecScan(t, b + 1);
    }
    if At(t, c) == 'e' || At(t, c) == 'E' {
      PlainScan(t, c, SkipSign(t, c + 1), false);
      DecScan(t, SkipSign(t, c + 1));
    }
  }

  lemma WordScan(t: string, p: nat, rest: string)
    requires p < |t| && Plain(t[p]) && StartsAt(t, p + 1, rest) && forall i :: 0 <= i < |rest| ==> Plain(rest[i])
    ensures EndsInside(t, p, false) == EndsInside(t, p + 1 + |rest|, false)
  {
    forall i | p < i < p + 1 + |rest| ensures Plain(t[i]) {
      assert t[i] == t[p + 1 + (i - p - 1)] == rest[i - p - 1];
    }
    PlainScan(t, p, p + 1 + |rest|, false);
  }

  lemma {:induction false} LiteralScan(t: string, p: nat)
    requires p <= |t| && NUL !in t
    ensures LexString(t, p).Closed? ==> EndsInside(t, p, true) == EndsInside(t, LexString(t, p).next, false)
    ensures LexString(t, p).Open? ==> EndsInside(t, p, true) && LexString(t, p).next == |t|
    decreases |t| - p
  {
    var c, e := At(t, p), At(t, p + 1);
    if p == |t| || c == '"' {
    } else if c != '\\' {
      LiteralScan(t, p + 1);
    } else if ShortEscape(e).Some? {
      LiteralScan(t, p + 2);
    } else if e == 'u' && HexAt(t, p + 2, 4).Code? {
      HexRead(t, p + 2, 4);
      PlainScan(t, p + 2, p + 6, true);
      LiteralScan(t, p + 6);
    }
  }

  // ---- The same text with white space behind it ----

  // w is white space, of which there is some, and t does not end in any.
  predicate Padded(t: string, w: string) {
    NUL !in t && (t != "" ==> !IsSpace(t[|t| - 1])) && w != "" && White(w)
  }

  lemma AtPadded(t: string, w: string, i: nat)
    requires Padded(t, w)
    ensures i < |t| ==> At(t + w, i) == At(t, i)
    ensures i == |t| ==> IsSpace(At(t + w, i)) && At(t, i) == NUL
  {
  }

  lemma {:induction false} SpacePadded(t: string, w: string, p: nat)
    requires Padded(t, w) && p < |t|
    ensures SkipSpace(t + w, p) == SkipSpace(t, p) < |t|
    decreases |t| - p
  {
    AtPadded(t, w, p);
    if IsSpace(t[p]) {
      SpacePadded(t, w, p + 1);
    }
  }

  lemma {:induction false} DecPadded(t: string, w: string, p: nat)
    requires Padded(t, w) && p <= |t|
    ensures SkipDec(t + w, p) == SkipDec(t, p)
    decreases |t| - p
  {
    AtPadded(t, w, p);
    if p < |t| && IsDec(t[p]) {
      DecPadded(t, w, p + 1);
    }
  }

  lemma FractionPadded(t: string, w: string, p: nat)
    requires Padded(t, w) && p <= |t|
    ensures SkipFraction(t + w, p) == SkipFraction(t, p)
  {
    AtPadded(t, w, p);
    if At(t, p) == '.' {
      DecPadded(t, w, p + 1);
    }
  }

  lemma ExponentPadded(t: string, w: string, p: nat)
    requires Padded(t, w) && p <= |t|
    ensures SkipExponent(t + w, p) == SkipExponent(t, p)
  {
    AtPadded(t, w, p);
    if At(t, p) == 'e' || At(t, p) == 'E' {
      SignPadded(t, w, p + 1);
      DecPadded(t, w, SkipSign(t, p + 1));
    }
  }

  lemma NumberPadded(t: string, w: string, p: nat)
    requires Padded(t, w) && p <= |t|
    ensures NumberEnd(t + w, p) == NumberEnd(t, p)
  {
    var a := SkipSign(t, p);
    var b := SkipDec(t, a);
    SignPadded(t, w, p);
    DecPadded(t, w, a);
    FractionPadded(t, w, b);
    ExponentPadded(t, w, SkipFraction(t, b));
  }

  lemma SignPadded(t: string, w: string, p: nat)
    requires Padded(t, w) && p <= |t|
    ensures SkipSign(t + w, p) == SkipSign(t, p)
  {
    AtPadded(t, w, p);
  }

  lemma {:induction false} HexPadded(t: string, w: string, p: nat, n: nat)
    requires Padded(t, w) && p <= |t|
    ensures HexAt(t + w, p, n) == HexAt(t, p, n)
  {
    if n > 0 {
      HexPadded(t, w, p, n - 1);
      if HexAt(t, p, n - 1).Code? {
        AtPadded(t, w, p + n - 1);
      }
    }
  }

  lemma {:induction false} WhiteOpen(u: string, p: nat)
    requires p <= |u| && White(u[p..])
    ensures LexString(u, p) == Open(u[p..], |u|)
    decreases |u| - p
  {
    if p < |u| {
      assert u[p] == u[p..][0] && u[p + 1..] == u[p..][1..];
      WhiteOpen(u, p + 1);
      assert [u[p]] + u[p + 1..] == u[p..];
    }
  }

  // A literal left open takes the white space in.
  function Longer(l: Literal, w: string): Literal {
    if l.Open? then Open(l.s + w, l.next + |w|) else l
  }

  lemma PrependLonger(s: string, l: Literal, w: string)
    ensures Prepend(s, Longer(l, w)) == Longer(Prepend(s, l), w)
  {
    if l.Open? {
      assert s + (l.s + w) == (s + l.s) + w;
    }
  }

  lemma {:induction false} LiteralPadded(t: string, w: string, p: nat)
    requires Padded(t, w) && p <= |t|
    ensures LexString(t + w, p) == Longer(LexString(t, p), w)
    decreases |t| - p
  {
    AtPadded(t, w, p);
    AtPadded(t, w, p + 1);
    var c, e := At(t, p), At(t, p + 1);
    if p == |t| {
      assert (t + w)[p..] == w;
      WhiteOpen(t + w, p);
    } else if c == '"' {
    } else if c != '\\' {
      LiteralPadded(t, w, p + 1);
      PrependLonger([c], LexString(t, p + 1), w);
    } else if ShortEscape(e).Some? {
      LiteralPadded(t, w, p + 2);
      PrependLonger([ShortEscape(e).value], LexString(t, p + 2), w);
    } else if e == 'u' {
      UnicodePadded(t, w, p);
      if HexAt(t, p + 2, 4).Code? {
        LiteralPadded(t, w, p + 6);
        PrependLonger(Utf8(HexAt(t, p + 2, 4).value), LexString(t, p + 6), w);
      }
    }
  }

  lemma UnicodePadded(t: string, w: string, p: nat)
    requires Padded(t, w) && p + 1 < |t|
    ensures HexAt(t + w, p + 2, 4) == HexAt(t, p + 2, 4)
  {
    HexPadded(t, w, p + 2, 4);
  }

  // ---- One token of both texts ----

  // The token at p is the same in both texts.
  predicate SameToken(t: string, p: nat, a: Lexeme, b: Lexeme)
  {
    && a == b
    && (a.Wrong? ==> a.status != BreakingBad && a.status != Overrun)
    && (a.Scalar? ==> EndsInside(t, p, false) == EndsInside(t, a.next, false))
  }

  predicate TakesAll(a: Lexeme, n: nat) {
    a.Scalar? && a.value.String? && a.next == n
  }

  lemma NumberToken(t: string, w: string, p: nat)
    requires Padded(t, w) && p < |t| && (t[p] == '-' || IsDec(t[p]))
    ensures SameToken(t, p, LexNumber(t, p), LexNumber(t + w, p))
  {
    var e := NumberEnd(t, p);
    NumberPadded(t, w, p);
    NumberScan(t, p);
    AtPadded(t, w, p + 1);
    AtPadded(t, w, e);
    assert (t + w)[p..e] == t[p..e];
  }

  lemma WordToken(t: string, w: string, p: nat, rest: string, v: Json)
    requires Padded(t, w) && p < |t| && Plain(t[p])
    requires forall i :: 0 <= i < |rest| ==> Plain(rest[i]) && !IsSpace(rest[i])
    ensures SameToken(t, p, LexWord(t, p, rest, v), LexWord(t + w, p, rest, v))
  {
    var q := p + 1 + |rest|;
    if q <= |t| {
      AtPadded(t, w, q);
      assert StartsAt(t, p + 1, rest) <==> StartsAt(t + w, p + 1, rest);
      if StartsAt(t, p + 1, rest) {
        WordScan(t, p, rest);
      }
    } else {
      var i := |t| - p - 1;
      AtPadded(t, w, |t|);
      assert rest[i] != (t + w)[p + 1 + i];
    }
  }

  lemma StringToken(t: string, w: string, p: nat)
    requires Padded(t, w) && p < |t| && t[p] == '"'
    ensures if IsOpen(t, p) then
        EndsInside(t, p, false) && TakesAll(LexQuoted(t, p), |t|) && TakesAll(LexQuoted(t + w, p), |t + w|)
      else SameToken(t, p, LexQuoted(t, p), LexQuoted(t + w, p))
  {
    LiteralPadded(t, w, p + 1);
    LiteralScan(t, p + 1);
    if LexString(t, p + 1).Closed? {
      AtPadded(t, w, LexString(t, p + 1).next);
    }
  }

  lemma ScalarToken(t: string, w: string, p: nat)
    requires Padded(t, w) && p < |t| && StartsScalar(t[p])
    ensures if IsOpen(t, p) then
        EndsInside(t, p, false) && TakesAll(LexScalar(t, p), |t|) && TakesAll(LexScalar(t + w, p), |t + w|)
      else SameToken(t, p, LexScalar(t, p), LexScalar(t + w, p))
  {
    match t[p]
    case '"' => StringToken(t, w, p);
    case 't' => WordToken(t, w, p, "rue", Bool(true));
    case 'f' => WordToken(t, w, p, "alse", Bool(false));
    case 'n' => WordToken(t, w, p, "ull", Null);
    case _ => NumberToken(t, w, p);
  }

  // ---- One round on both texts ----

  // One round does the same on both texts, from pos on, or it takes all of them as a string.
  predicate Alike(t: string, w: string, pos: nat, a: Progress, b: Progress) {
    if a == b then
      && (a.Stop? && a.outcome.Failed? ==> a.outcome.status != BreakingBad && a.outcome.status != Overrun)
      && (a.More? ==> EndsInside(t, pos, false) == EndsInside(t, a.pos, false))
    else EndsInside(t, pos, false) && Spent(a, |t|) && Spent(b, |t + w|)
  }

  predicate Spent(a: Progress, n: nat) {
    if a.Stop? then a.outcome.Parsed? else a.pos == n
  }

  lemma CompleteAlike(t: string, w: string, pos: nat, p: nat, stack: seq<Frame>)
    requires Padded(t, w) && pos <= p < |t| && StartsScalar(t[p])
    requires EndsInside(t, pos, false) == EndsInside(t, p, false)
    ensures var a, b := LexScalar(t, p), LexScalar(t + w, p);
      if a.Wrong? then b == a && a.status != BreakingBad && a.status != Overrun
      else b.Scalar? && Alike(t, w, pos, Complete(a.value, p, a.next, stack), Complete(b.value, p, b.next, stack))
  {
    ScalarToken(t, w, p);
  }

  lemma SignAlike(t: string, w: string, pos: nat, p: nat)
    requires Padded(t, w) && pos <= p < |t| && EndsInside(t, pos, false) == EndsInside(t, p, false) && t[p] != '"'
    ensures EndsInside(t, pos, false) == EndsInside(t, p + 1, false)
  {
  }

  lemma StepAlike(t: string, w: string, pos: nat, stack: seq<Frame>, separator: bool)
    requires Padded(t, w) && pos < |t| && (stack == [] ==> separator)
    ensures Alike(t, w, pos, Step(t, pos, stack, separator), Step(t + w, pos, stack, separator))
  {
    var p := SkipSpace(t, pos);
    SpacePadded(t, w, pos);
    SpaceScan(t, pos);
    AtPadded(t, w, pos);
    AtPadded(t, w, p);
    if StartsScalar(t[p]) {
      CompleteAlike(t, w, pos, p, stack);
    } else if t[p] != '"' {
      SignAlike(t, w, pos, p);
    }
  }

  // ---- The whole run ----

  predicate IsFailure(r: Outcome, status: Status) {
    r.Failed? && r.status == status
  }

  // With k and l as what the parser ends with on t and on t + w.
  lemma {:induction false} RunPadded(t: string, w: string, k: Ending, l: Ending, pos: nat, stack: seq<Frame>,
                                     separator: bool)
    requires Padded(t, w) && Follows(t, k) && Follows(t + w, l) && pos <= |t| && (stack == [] ==> separator)
    ensures var r := More(pos, stack, separator);
      IsFailure(l(r), Overrun) <==> IsFailure(k(r), BreakingBad) && !EndsInside(t, pos, false)
    decreases |t| - pos
  {
    if pos == |t| {
      AtEnd(t, k, pos, stack, separator);
      PastEnd(t, w, l, stack, separator);
    } else {
      var a, b := Step(t, pos, stack, separator), Step(t + w, pos, stack, separator);
      Rounds(t, k, pos, stack, separator, a);
      Rounds(t + w, l, pos, stack, separator, b);
      StepAlike(t, w, pos, stack, separator);
      if a != b {
        SpentEnds(t, k, a);
        SpentEnds(t + w, l, b);
      } else if a.Stop? {
        Stopped(t, k, a);
        Stopped(t + w, l, a);
      } else {
        RunPadded(t, w, k, l, a.pos, a.stack, a.separator);
      }
    }
  }

  lemma AtEnd(t: string, k: Ending, pos: nat, stack: seq<Frame>, separator: bool)
    requires Follows(t, k) && pos == |t| && (stack == [] ==> separator)
    ensures IsFailure(k(More(pos, stack, separator)), BreakingBad)
  {
    var a := Stop(Failed(BreakingBad, pos));
    Rounds(t, k, pos, stack, separator, a);
    Stopped(t, k, a);
  }

  // A round that starts at white space and finds nothing behind it.
  lemma PastEnd(t: string, w: string, l: Ending, stack: seq<Frame>, separator: bool)
    requires Padded(t, w) && Follows(t + w, l) && (stack == [] ==> separator)
    ensures IsFailure(l(More(|t|, stack, separator)), Overrun)
  {
    var a := Stop(Failed(Overrun, |t + w|));
    AtPadded(t, w, |t|);
    assert StartsAt(t + w, |t|, w);
    SkipWhite(t + w, |t|, w);
    Rounds(t + w, l, |t|, stack, separator, a);
    Stopped(t + w, l, a);
  }

  lemma SpentEnds(t: string, k: Ending, a: Progress)
    requires Follows(t, k) && Spent(a, |t|) && (a.More? ==> a.stack == [] ==> a.separator)
    ensures k(a).Parsed? || IsFailure(k(a), BreakingBad)
  {
    Stopped(t, k, a);
    if a.More? {
      AtEnd(t, k, a.pos, a.stack, a.separator);
    }
  }

  function Trim(u: string): (t: string)
    ensures t != "" ==> !Blank(t[|t| - 1])
    ensures |t| <= |u| && t == u[..|t|] && White(u[|t|..])
  {
    if u == "" || !Blank(u[|u| - 1]) then u else Trim(u[..|u| - 1])
  }

  // The text is read past its terminating NUL if and only if it ends in white space, what stands before that ends too
  // early, and that is not inside a string.
  lemma OverrunsExactly(u: string)
    requires NUL !in u
    ensures IsFailure(Parse(u), Overrun) <==>
      Trim(u) != u && IsFailure(Parse(Trim(u)), BreakingBad) && !InString(Trim(u))
  {
    var t := Trim(u);
    var w := u[|t|..];
    assert t + w == u;
    if w == "" {
      StaysInside(u, 0, [], true);
    } else {
      assert Padded(t, w);
      RunPadded(t, w, EndingOf(t), EndingOf(u), 0, [], true);
    }
  }

  // A text that does not end in white space is never read past its end, from any state.
  lemma {:induction false} StaysInside(text: string, pos: nat, stack: seq<Frame>, separator: bool)
    requires pos <= |text| && (stack == [] ==> separator) && NUL !in text
    requires text != "" ==> !Blank(text[|text| - 1])
    ensures var r := Run(text, pos, stack, separator); r.Failed? ==> r.status != Overrun
    decreases |text| - pos
  {
    if pos < |text| {
      SpacePadded(text, " ", pos);
      match Step(text, pos, stack, separator)
      case Stop(_) =>
      case More(next, stack', separator') => StaysInside(text, next, stack', separator');
    }
  }

  // One blank is enough where a value is missing, and does not matter behind one.
  lemma BlankOverruns()
    ensures Parse(" ") == Failed(Overrun, 1) && Parse("1 ") == Parsed(Number("1"), 1)
  {
    assert SkipSpace(" ", 1) == 1;
    assert SkipDec("1 ", 1) == 1 && "1 "[0..1] == "1";
    assert LexScalar("1 ", 0) == Scalar(Number("1"), 1);
  }
}
