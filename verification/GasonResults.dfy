// What follows for a caller of json_parse, and where it departs from the standards.
module GasonResults {
  import opened AcceptedJson
  import opened GasonGrammar
  import opened GasonNodes
  import GasonParser
  import opened GasonText
  import opened Options
  import opened WrittenJson

  // ---- Texts of the grammar ----

  // Every text of the grammar with at most 32 brackets open at once is parsed to its tree, and the text behind it is
  // not looked at; with more it is refused with a stack overflow. A scalar has to be followed by a delimiter.
  lemma ParsingUndoesPrinting(w: string, d: Doc, rest: string)
    requires Good(d, true) && White(w)
    requires IsScalar(d) && rest != "" ==> Delimits(rest[0])
    ensures Depth(d) <= 32 ==> Parse(w + Text(d) + rest) == Parsed(Value(d), |w| + |Text(d)|)
    ensures Depth(d) > 32 ==>
      Parse(w + Text(d) + rest).Failed? && Parse(w + Text(d) + rest).status == StackOverflow
  {
    var text := w + Text(d) + rest;
    DocIsRead(text, |w + Text(d)|, w, d);
  }

  lemma DocIsRead(text: string, n: nat, w: string, d: Doc)
    requires Good(d, true) && White(w) && StartsAt(text, 0, w + Text(d)) && n == |w| + |Text(d)|
    requires IsScalar(d) ==> Delimits(At(text, n))
    ensures Depth(d) <= 32 ==> Parse(text) == Parsed(Value(d), n)
    ensures Depth(d) > 32 ==> Parse(text).Failed? && Parse(text).status == StackOverflow
  {
    EndingFollows(text);
    RunDoc(text, EndingOf(text), 0, w, d, [], true, n);
    Stopped(text, EndingOf(text), Complete(Value(d), 0, n, []));
  }

  // Every JSON text of RFC 8259 is one of them, and its value is the one the RFC gives it.
  lemma JsonIsRead(w: string, d: Doc, rest: string)
    requires Rfc8259(d) && Depth(d) <= 32 && RfcWhite(w)
    requires IsScalar(d) && rest != "" ==> Delimits(rest[0])
    ensures Parse(w + Text(d) + rest) == Parsed(Value(d), |w| + |Text(d)|)
  {
    RfcIsGood(d, true);
    ParsingUndoesPrinting(w, d, rest);
  }

  // ---- Strings that the end of the text cuts off ----

  lemma {:induction false} OpenLexed(text: string, p: nat, s: seq<Piece>, n: nat)
    requires GoodPieces(s) && StartsAt(text, p, PiecesText(s)) && n == p + |PiecesText(s)| && At(text, n) == NUL
    ensures LexString(text, p) == Open(PiecesValue(s), n)
    decreases |s|
  {
    if s != [] {
      Within(text, p, PieceText(s[0]), PiecesText(s[1..]));
      PieceLexed(text, p, s[0]);
      OpenLexed(text, p + |PieceText(s[0])|, s[1..], n);
    }
  }

  lemma LiteralAt(text: string, w: string, t: string)
    requires White(w) && StartsAt(text, 0, w + ("\"" + t))
    ensures |w| < |text| && SkipSpace(text, 0) == |w| && At(text, 0) != NUL && text[|w|] == '"'
    ensures StartsAt(text, |w| + 1, t)
  {
    TokenAt(text, 0, w, "\"" + t);
    Within(text, |w|, "\"", t);
  }

  lemma StaleAt(text: string, p: nat, s: seq<Piece>, n: nat)
    requires StartsAt(text, p, PiecesText(s)) && n == p + |PiecesText(s)|
    ensures text[p + |PiecesValue(s)|..n] == Stale(s)
  {
    SliceOf(text, p, PiecesText(s));
    StaleBytes(text, p, n, s);
  }

  lemma OpenToken(text: string, p: nat, s: string, stale: string, n: nat)
    requires p < |text| && text[p] == '"'
    requires LexString(text, p + 1) == Open(s, n) && text[p + 1 + |s|..n] == stale
    ensures LexScalar(text, p) == Scalar(String(s + stale), n)
  {
  }

  lemma ScalarStops(text: string, p: nat, v: Json, n: nat)
    requires p < |text| && SkipSpace(text, 0) == p && At(text, 0) != NUL && StartsScalar(text[p])
    requires LexScalar(text, p) == Scalar(v, n)
    ensures Parse(text) == Parsed(v, n)
  {
    EndingFollows(text);
    ScalarRound(text, 0, p, v, n, [], true);
    Rounds(text, EndingOf(text), 0, [], true, Complete(v, p, n, []));
    Stopped(text, EndingOf(text), Complete(v, p, n, []));
  }

  lemma CutOffToken(text: string, p: nat, s: seq<Piece>, n: nat)
    requires p < |text| && text[p] == '"' && GoodPieces(s) && StartsAt(text, p + 1, PiecesText(s))
    requires n == p + 1 + |PiecesText(s)| && At(text, n) == NUL
    ensures LexScalar(text, p) == Scalar(String(PiecesValue(s) + Stale(s)), n)
  {
    OpenLexed(text, p + 1, s, n);
    StaleAt(text, p + 1, s, n);
    OpenToken(text, p, PiecesValue(s), Stale(s), n);
  }

  lemma CutOffIsRead(text: string, v: Json, n: nat, w: string, s: seq<Piece>)
    requires CutOffAs(text, v, n, w, s)
    ensures Parse(text) == Parsed(v, n)
  {
    LiteralAt(text, w, PiecesText(s));
    CutOffToken(text, |w|, s, n);
    ScalarStops(text, |w|, v, n);
  }

  // A string that the end of the text cuts off is accepted. Its value is what was decoded and, behind that, as many of
  // the last bytes of the text as the escapes were longer than what they stand for.
  lemma OpenStringIsAccepted(w: string, s: seq<Piece>)
    requires White(w) && GoodPieces(s)
    ensures var text := w + ("\"" + PiecesText(s));
      Parse(text) == Parsed(String(PiecesValue(s) + Stale(s)), |text|)
    ensures PiecesValue(s) + Stale(s) == PiecesValue(s) <==> forall i :: 0 <= i < |s| ==> s[i].Raw?
  {
    var text := w + ("\"" + PiecesText(s));
    CutOffIsRead(text, String(PiecesValue(s) + Stale(s)), |text|, w, s);
    RawExactly(s);
  }

  lemma {:induction false} RawExactly(s: seq<Piece>)
    requires GoodPieces(s)
    ensures |PiecesValue(s)| == |PiecesText(s)| <==> forall i :: 0 <= i < |s| ==> s[i].Raw?
    decreases |s|
  {
    if s != [] {
      RawExactly(s[1..]);
      if s[0].Raw? && forall i :: 0 <= i < |s[1..]| ==> s[1..][i].Raw? {
        assert forall i :: 0 < i < |s| ==> s[i] == s[1..][i - 1];
      }
    }
  }

  // From i on, a quote that is not escaped does not come any more.
  predicate Unclosed(t: string, i: nat)
    decreases |t| - i
  {
    i >= |t| || (if t[i] == '\\' then Unclosed(t, i + 2) else t[i] != '"' && Unclosed(t, i + 1))
  }

  lemma {:induction false} NotClosed(t: string, i: nat)
    requires i <= |t| && Unclosed(t, i)
    ensures !LexString(t, i).Closed?
    decreases |t| - i
  {
    var c, e := At(t, i), At(t, i + 1);
    if c == NUL {
    } else if c != '\\' {
      NotClosed(t, i + 1);
    } else if ShortEscape(e).Some? {
      NotClosed(t, i + 2);
    } else if e == 'u' && HexAt(t, i + 2, 4).Code? {
      HexRead(t, i + 2, 4);
      assert Unclosed(t, i + 3) && Unclosed(t, i + 4) && Unclosed(t, i + 5);
      NotClosed(t, i + 6);
    }
  }

  // Characters and whole escapes.
  ghost predicate Spelt(t: string) {
    exists s :: GoodPieces(s) && PiecesText(s) == t
  }

  lemma SpeltOrBroken(text: string, p: nat)
    requires p <= |text| && NUL !in text && Unclosed(text, p)
    ensures LexString(text, p).Broken? <==> !Spelt(text[p..])
  {
    NotClosed(text, p);
    if LexString(text, p).Open? {
      var s := PiecesRead(text, p);
      assert text[p..|text|] == text[p..];
    } else if Spelt(text[p..]) {
      var s :| GoodPieces(s) && PiecesText(s) == text[p..];
      OpenLexed(text, p, s, |text|);
    }
  }

  lemma LiteralRound(text: string, p: nat)
    requires p < |text| && SkipSpace(text, 0) == p && At(text, 0) != NUL && text[p] == '"'
    ensures LexString(text, p + 1).Broken? ==> Parse(text) == Failed(BadString, LexString(text, p + 1).at)
    ensures LexString(text, p + 1).Open? ==> Parse(text).Parsed?
  {
    if LexString(text, p + 1).Broken? {
      assert LexScalar(text, p) == Wrong(BadString, LexString(text, p + 1).at);
    } else if LexString(text, p + 1).Open? {
      assert LexScalar(text, p).Scalar?;
    }
  }

  lemma BehindQuote(w: string, t: string)
    ensures var text := w + "\"" + t;
      text == w + ("\"" + t) && text[|w| + 1..] == t && (NUL !in w && NUL !in t ==> NUL !in text)
  {
  }

  // It is refused exactly when it does not consist of characters and whole escapes.
  lemma OpenStringIsRefused(w: string, t: string)
    requires White(w) && NUL !in t && Unclosed(t, 0)
    ensures Parse(w + "\"" + t).Failed? <==> !Spelt(t)
    ensures Parse(w + "\"" + t).Failed? ==> Parse(w + "\"" + t).status == BadString
  {
    var text, p := w + "\"" + t, |w| + 1;
    BehindQuote(w, t);
    LiteralAt(text, w, t);
    UnclosedFrom(w + "\"", t, 0);
    SpeltOrBroken(text, p);
    NotClosed(text, p);
    LiteralRound(text, |w|);
  }

  lemma {:induction false} UnclosedFrom(a: string, t: string, i: nat)
    requires Unclosed(t, i)
    ensures Unclosed(a + t, |a| + i)
    decreases |t| - i
  {
    if i < |t| {
      assert (a + t)[|a| + i] == t[i];
      UnclosedFrom(a, t, if t[i] == '\\' then i + 2 else i + 1);
    }
  }

  // ---- Exactly what is accepted ----

  // Texts of the grammar and strings that are cut off, with their values, and nothing else.
  lemma AcceptedExactly(text: string, v: Json, n: nat)
    ensures Parse(text) == Parsed(v, n) <==> Accepts(text, v, n)
  {
    if Parse(text) == Parsed(v, n) {
      AcceptedIsWritten(text, v, n);
    }
    forall w, d | WrittenAs(text, v, n, w, d) ensures Parse(text) == Parsed(v, n) {
      DocIsRead(text, n, w, d);
    }
    forall w, s | CutOffAs(text, v, n, w, s) ensures Parse(text) == Parsed(v, n) {
      CutOffIsRead(text, v, n, w, s);
    }
  }

  // ---- Reading back ----

  // After json_parse on the text of d, the nodes and the buffer read as the tree of d.
  lemma PrintedIsReadBack(w: string, d: Doc, rest: string, status: Option<Status>, end: nat, value: JsonValue,
                          bytes: string, nodes: seq<JsonNode>)
    requires Good(d, true) && White(w) && (IsScalar(d) && rest != "" ==> Delimits(rest[0])) && bytes != ""
    requires GasonParser.Delivered(Parse(w + Text(d) + rest), status, end, value, bytes, nodes)
    ensures status == (if Depth(d) <= 32 then None else Some(StackOverflow))
    ensures Depth(d) <= 32 ==>
      end == |w + Text(d)| && Reads(GasonParser.AllSealed(bytes, nodes), value, Value(d))
  {
    ParsingUndoesPrinting(w, d, rest);
  }

  // toString of a string: the bytes up to the first NUL.
  function CString(b: string, at: nat): string
    requires at <= |b|
    decreases |b| - at
  {
    if at == |b| || b[at] == NUL then "" else [b[at]] + CString(b, at + 1)
  }

  // That is all of the string, unless the text had the escape for NUL in it.
  lemma {:induction false} StringIsReadBack(b: string, at: nat, s: string, limit: nat)
    requires StringAt(b, at, s, limit)
    ensures CString(b, at) == s <==> NUL !in s
    decreases |s|
  {
    if s != "" {
      assert s[0] == b[at];
      if s[0] != NUL {
        forall i | 0 <= i < |s[1..]| ensures s[1..][i] == b[at + 1 + i] {
          assert s[1..][i] == s[i + 1];
        }
        StringIsReadBack(b, at + 1, s[1..], limit);
        assert s == [s[0]] + s[1..];
        assert NUL in s <==> NUL in s[1..];
      }
    }
  }

  // ---- Section 3 of RFC 3629 ----

  predicate Continues(c: char) {
    0x80 <= c as int < 0xC0
  }

  // The number in one sequence of bytes that is as short as can be.
  function Sequence(s: string): Option<nat> {
    if |s| == 1 && s[0] as int < 0x80 then Some(s[0] as int)
    else if |s| == 2 && 0xC2 <= s[0] as int < 0xE0 && Continues(s[1]) then
      Some((s[0] as int - 0xC0) * 64 + (s[1] as int - 0x80))
    else if |s| == 3 && 0xE0 <= s[0] as int < 0xF0 && Continues(s[1]) && Continues(s[2]) then
      var c := (s[0] as int - 0xE0) * 4096 + (s[1] as int - 0x80) * 64 + (s[2] as int - 0x80);
      if c < 0x800 then None else Some(c)
    else if |s| == 4 && 0xF0 <= s[0] as int < 0xF5 && Continues(s[1]) && Continues(s[2]) && Continues(s[3]) then
      var c := (s[0] as int - 0xF0) * 262144 + (s[1] as int - 0x80) * 4096 + (s[2] as int - 0x80) * 64
        + (s[3] as int - 0x80);
      if c < 0x10000 || c > 0x10FFFF then None else Some(c)
    else None
  }

  // The code point of one well-formed sequence of bytes.
  function Rfc3629(s: string): Option<nat> {
    match Sequence(s)
    case None => None
    case Some(c) => if 0xD800 <= c < 0xE000 then None else Some(c)
  }

  // The bytes stored for \uXXXX are the sequence of that number, and the UTF-8 of that code point exactly when it is no
  // surrogate.
  lemma EscapeIsUtf8(c: nat)
    requires c < 0x10000
    ensures Sequence(Utf8(c)) == Some(c)
    ensures Rfc3629(Utf8(c)) == (if 0xD800 <= c < 0xE000 then None else Some(c))
  {
    assert c / 64 == c / 4096 * 64 + c / 64 % 64;
  }

  // A pair of surrogates, by section 7 of RFC 8259 one code point above 0xFFFF, is never stored as its UTF-8.
  lemma SurrogatesStayApart(high: nat, low: nat)
    requires 0xD800 <= high < 0xDC00 && 0xDC00 <= low < 0xE000
    ensures Rfc3629(Utf8(high) + Utf8(low)) == None
  {
  }
}
