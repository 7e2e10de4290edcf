// The texts json_parse accepts, each with the tree it stands for; the texts of RFC 8259 are among them.
//
// A Doc is one way to write a value: the white space, the escapes, the form of the numbers and the commas and colons
// that are there or not are all in it. Good says which Docs the parser reads, Rfc8259 which of them are JSON. Nothing
// up to the value of a Doc is taken from the scanner: characters, escapes and values are those of RFC 8259.
module GasonGrammar {
  import opened GasonText

  // A character as it is, \ and a letter, or \u and four hex digits.
  datatype Piece = Raw(c: char) | Short(letter: char) | Unicode(digits: string)

  // [ minus ] whole [ frac ] [ exp ].
  datatype Fraction = NoFraction | Fraction(digits: string)
  datatype Exponent = NoExponent | Exponent(e: char, sign: string, digits: string)

  // A comma or a colon that may be missing, with the white space before it.
  datatype Sign = NoSign | Sign(before: string)

  datatype Name = NoName | Name(before: string, key: seq<Piece>, colon: Sign)

  datatype Doc =
    | DNull
    | DBool(b: bool)
    | DNumber(minus: bool, whole: string, frac: Fraction, exp: Exponent)
    | DString(pieces: seq<Piece>)
    | DList(isObject: bool, items: seq<Item>, end: End)

  datatype Item = Item(comma: Sign, name: Name, space: string, value: Doc)

  // What stands between the last item and the closing bracket. The name is a key without a value.
  datatype End = End(comma: Sign, name: Name, space: string)

  // ---- Which Docs the parser reads ----

  // JSON's white space, the vertical tab and the form feed.
  predicate Blank(c: char) {
    c == ' ' || c == '\t' || c == '\n' || c == '\r' || c == '\U{b}' || c == '\U{c}'
  }

  predicate White(s: string) {
    forall i :: 0 <= i < |s| ==> Blank(s[i])
  }

  // What may follow a scalar; NUL is the end of the text.
  predicate Delimits(c: char) {
    Blank(c) || c == '\0' || c == ',' || c == ':' || c == ']' || c == '}'
  }

  predicate Digits(s: string) {
    forall i :: 0 <= i < |s| ==> '0' <= s[i] <= '9'
  }

  predicate HexDigit(c: char) {
    '0' <= c <= '9' || 'A' <= c <= 'F' || 'a' <= c <= 'f'
  }

  predicate EscapeLetter(c: char) {
    c == '"' || c == '\\' || c == '/' || c == 'b' || c == 'f' || c == 'n' || c == 'r' || c == 't'
  }

  predicate GoodPiece(x: Piece) {
    match x
    case Raw(c) => c != '\0' && c != '"' && c != '\\'
    case Short(letter) => EscapeLetter(letter)
    case Unicode(d) => |d| == 4 && forall i :: 0 <= i < 4 ==> HexDigit(d[i])
  }

  predicate GoodPieces(s: seq<Piece>) {
    s != [] ==> GoodPiece(s[0]) && GoodPieces(s[1..])
  }

  predicate GoodExponent(x: Exponent) {
    x.Exponent? ==>
      && (x.e == 'e' || x.e == 'E')
      && (x.sign == "" || x.sign == "+" || x.sign == "-")
      && Digits(x.digits)
  }

  predicate GoodFraction(f: Fraction) {
    f.Fraction? ==> Digits(f.digits)
  }

  predicate GoodNumber(d: Doc)
    requires d.DNumber?
  {
    && Digits(d.whole) && (d.whole != "" || (d.minus && d.frac.Fraction?))
    && GoodFraction(d.frac) && GoodExponent(d.exp)
  }

  predicate IsScalar(d: Doc) {
    !d.DList?
  }

  // space is the white space in front of the next token. A sign is read only where none was read since the last value
  // or key, and where a scalar ended and no delimiter follows, white space has to.
  predicate GoodGap(separator: bool, tight: bool, sign: Sign, space: string) {
    && White(space)
    && (sign.Sign? ==> !separator && White(sign.before))
    && (sign.NoSign? && tight ==> space != "")
  }

  // What stands in front of a value or, where it closes, of the closing bracket.
  predicate GoodFront(separator: bool, tight: bool, closes: bool, comma: Sign, name: Name, space: string) {
    match name
    case NoName => GoodGap(separator, tight && !closes, comma, space)
    case Name(before, key, colon) =>
      GoodGap(separator, tight, comma, before) && GoodPieces(key) && GoodGap(false, !closes, colon, space)
  }

  // Whether a comma or colon is the last token in front of the value, with separator as it was before.
  predicate Separated(separator: bool, comma: Sign, name: Name) {
    if name.Name? then name.colon.Sign? else separator || comma.Sign?
  }

  // separator is the variable of json_parse where the Doc starts.
  predicate Good(d: Doc, separator: bool)
    decreases d
  {
    match d
    case DNull => true
    case DBool(_) => true
    case DNumber(_, _, _, _) => GoodNumber(d)
    case DString(pieces) => GoodPieces(pieces)
    case DList(isObject, items, end) => GoodRest(isObject, separator, false, items, end)
  }

  predicate GoodRest(isObject: bool, separator: bool, tight: bool, xs: seq<Item>, end: End)
    decreases xs
  {
    if xs == [] then GoodEnd(isObject, separator, tight, end)
    else GoodItem(isObject, separator, tight, xs[0]) && GoodRest(isObject, false, IsScalar(xs[0].value), xs[1..], end)
  }

  predicate GoodItem(isObject: bool, separator: bool, tight: bool, x: Item)
    decreases x
  {
    && x.name.Name? == isObject
    && GoodFront(separator, tight, false, x.comma, x.name, x.space)
    && Good(x.value, Separated(separator, x.comma, x.name))
  }

  predicate GoodEnd(isObject: bool, separator: bool, tight: bool, end: End) {
    (end.name.Name? ==> isObject) && GoodFront(separator, tight, true, end.comma, end.name, end.space)
  }

  // How many brackets are open at the deepest place.
  function Depth(d: Doc): nat {
    match d
    case DList(_, items, _) => 1 + DepthOf(items)
    case _ => 0
  }

  function DepthOf(xs: seq<Item>): nat {
    if xs == [] then 0 else Max(Depth(xs[0].value), DepthOf(xs[1..]))
  }

  function Max(a: nat, b: nat): nat {
    if a > b then a else b
  }

  // ---- Which of them are JSON by sections 2 to 7 of RFC 8259 ----

  // Section 2.
  predicate RfcWhite(s: string) {
    forall i :: 0 <= i < |s| ==> s[i] == ' ' || s[i] == '\t' || s[i] == '\n' || s[i] == '\r'
  }

  // Section 7.
  predicate RfcPieces(s: seq<Piece>) {
    GoodPieces(s) && forall i :: 0 <= i < |s| ==> s[i].Raw? ==> s[i].c as int >= 0x20
  }

  // Section 6.
  predicate RfcNumber(d: Doc)
    requires d.DNumber?
  {
    && GoodNumber(d)
    && d.whole != "" && (|d.whole| == 1 || d.whole[0] != '0')
    && (d.frac.Fraction? ==> d.frac.digits != "") && (d.exp.Exponent? ==> d.exp.digits != "")
  }

  // Sections 4 and 5: every key has its colon, and a comma stands between two items and nowhere else.
  predicate Rfc8259(d: Doc)
    decreases d
  {
    match d
    case DNull => true
    case DBool(_) => true
    case DNumber(_, _, _, _) => RfcNumber(d)
    case DString(pieces) => RfcPieces(pieces)
    case DList(isObject, items, end) => RfcRest(isObject, true, items, end)
  }

  predicate RfcRest(isObject: bool, first: bool, xs: seq<Item>, end: End)
    decreases xs
  {
    if xs == [] then end.comma.NoSign? && end.name.NoName? && RfcWhite(end.space)
    else RfcItem(isObject, first, xs[0]) && RfcRest(isObject, false, xs[1..], end)
  }

  predicate RfcItem(isObject: bool, first: bool, x: Item)
    decreases x
  {
    && (if first then x.comma.NoSign? else x.comma.Sign? && RfcWhite(x.comma.before))
    && (if isObject then RfcName(x.name) else x.name.NoName?)
    && RfcWhite(x.space) && Rfc8259(x.value)
  }

  predicate RfcName(name: Name) {
    name.Name? && RfcWhite(name.before) && RfcPieces(name.key) && name.colon.Sign? && RfcWhite(name.colon.before)
  }

  // Every JSON text is read.
  lemma {:induction false} RfcIsGood(d: Doc, separator: bool)
    requires Rfc8259(d)
    ensures Good(d, separator)
    decreases d
  {
    if d.DList? {
      RfcRestIsGood(d.isObject, separator, false, true, d.items, d.end);
    }
  }

  lemma {:induction false} RfcRestIsGood(isObject: bool, separator: bool, tight: bool, first: bool, xs: seq<Item>,
                                         end: End)
    requires RfcRest(isObject, first, xs, end) && (if first then !tight else !separator)
    ensures GoodRest(isObject, separator, tight, xs, end)
    decreases xs
  {
    if xs != [] {
      RfcIsGood(xs[0].value, Separated(separator, xs[0].comma, xs[0].name));
      RfcRestIsGood(isObject, false, IsScalar(xs[0].value), false, xs[1..], end);
    }
  }

  // ---- The text of a Doc ----

  function PieceText(x: Piece): string {
    match x
    case Raw(c) => [c]
    case Short(letter) => ['\\', letter]
    case Unicode(d) => "\\u" + d
  }

  function PiecesText(s: seq<Piece>): string {
    if s == [] then "" else PieceText(s[0]) + PiecesText(s[1..])
  }

  function FractionText(f: Fraction): string {
    match f
    case NoFraction => ""
    case Fraction(d) => "." + d
  }

  function ExponentText(x: Exponent): string {
    match x
    case NoExponent => ""
    case Exponent(e, sign, d) => [e] + sign + d
  }

  function NumberText(d: Doc): string
    requires d.DNumber?
  {
    (if d.minus then "-" else "") + d.whole + FractionText(d.frac) + ExponentText(d.exp)
  }

  function Quoted(s: seq<Piece>): string {
    "\"" + PiecesText(s) + "\""
  }

  function OpenBracket(isObject: bool): string {
    if isObject then "{" else "["
  }

  function CloseBracket(isObject: bool): string {
    if isObject then "}" else "]"
  }

  function SignText(sign: Sign, c: char): string {
    match sign
    case NoSign => ""
    case Sign(before) => before + [c]
  }

  function NameText(name: Name): string {
    match name
    case NoName => ""
    case Name(before, key, colon) => before + (Quoted(key) + SignText(colon, ':'))
  }

  function Text(d: Doc): string
    decreases d
  {
    match d
    case DNull => "null"
    case DBool(b) => if b then "true" else "false"
    case DNumber(_, _, _, _) => NumberText(d)
    case DString(pieces) => Quoted(pieces)
    case DList(isObject, items, end) => OpenBracket(isObject) + RestText(isObject, items, end)
  }

  // The items and what closes the bracket.
  function RestText(isObject: bool, xs: seq<Item>, end: End): string
    decreases xs
  {
    if xs == [] then FrontText(end.comma, end.name) + (end.space + CloseBracket(isObject))
    else FrontText(xs[0].comma, xs[0].name) + (xs[0].space + Text(xs[0].value) + RestText(isObject, xs[1..], end))
  }

  function FrontText(comma: Sign, name: Name): string {
    SignText(comma, ',') + NameText(name)
  }

  // ---- The value of a Doc ----

  // Section 7 of RFC 8259: the character behind each letter.
  function EscapedCharacter(letter: char): char
    requires EscapeLetter(letter)
  {
    match letter
    case '"' => 0x22 as char
    case '\\' => 0x5C as char
    case '/' => 0x2F as char
    case 'b' => 0x08 as char
    case 'f' => 0x0C as char
    case 'n' => 0x0A as char
    case 'r' => 0x0D as char
    case _ => 0x09 as char
  }

  function HexValue(c: char): (v: nat)
    requires HexDigit(c)
    ensures v < 16 && (c == "0123456789abcdef"[v] || c == "0123456789ABCDEF"[v])
  {
    if c <= '9' then (c - '0') as nat else 10 + (if c <= 'F' then c - 'A' else c - 'a') as nat
  }

  function CodeOf(d: string): nat
    requires forall i :: 0 <= i < |d| ==> HexDigit(d[i])
  {
    if d == "" then 0 else CodeOf(d[..|d| - 1]) * 16 + HexValue(d[|d| - 1])
  }

  function PieceValue(x: Piece): (r: string)
    ensures |r| <= |PieceText(x)|
    ensures GoodPiece(x) ==> (|r| == |PieceText(x)| <==> x.Raw?)
  {
    if !GoodPiece(x) then ""
    else
      match x
      case Raw(c) => [c]
      case Short(letter) => [EscapedCharacter(letter)]
      case Unicode(d) => CodeBound(d); Utf8(CodeOf(d))
  }

  lemma CodeBound(d: string)
    requires |d| == 4 && forall i :: 0 <= i < |d| ==> HexDigit(d[i])
    ensures CodeOf(d) < 0x10000
  {
    assert CodeOf(d[..1]) == CodeOf(d[..1][..0]) * 16 + HexValue(d[..1][0]);
    assert d[..1][..0] == "";
    assert d[..2][..1] == d[..1] && d[..3][..2] == d[..2];
    assert CodeOf(d[..2]) == CodeOf(d[..1]) * 16 + HexValue(d[1]);
    assert CodeOf(d[..3]) == CodeOf(d[..2]) * 16 + HexValue(d[2]);
  }

  function PiecesValue(s: seq<Piece>): (r: string)
    ensures |r| <= |PiecesText(s)|
  {
    if s == [] then "" else PieceValue(s[0]) + PiecesValue(s[1..])
  }

  function Value(d: Doc): Json
    decreases d
  {
    match d
    case DNull => Null
    case DBool(b) => Bool(b)
    case DNumber(_, _, _, _) => Number(NumberText(d))
    case DString(pieces) => String(PiecesValue(pieces))
    case DList(isObject, items, _) => List(isObject, ItemsValue(items))
  }

  function ItemValue(x: Item): Member
    decreases x
  {
    Member(if x.name.Name? then PiecesValue(x.name.key) else "", Value(x.value))
  }

  function ItemsValue(xs: seq<Item>): seq<Member>
    decreases xs
  {
    if xs == [] then [] else [ItemValue(xs[0])] + ItemsValue(xs[1..])
  }

  // ---- Lexing what was written ----

  // The text from p on is s and then something.
  lemma Within(text: string, p: nat, a: string, b: string)
    requires StartsAt(text, p, a + b)
    ensures StartsAt(text, p, a) && StartsAt(text, p + |a|, b)
  {
    forall i | 0 <= i < |a| ensures a[i] == text[p + i] {
      assert (a + b)[i] == a[i];
    }
    forall i | 0 <= i < |b| ensures b[i] == text[p + |a| + i] {
      assert (a + b)[|a| + i] == b[i];
    }
  }

  lemma {:induction false} SkipWhite(text: string, p: nat, w: string)
    requires White(w) && StartsAt(text, p, w)
    ensures SkipSpace(text, p) == SkipSpace(text, p + |w|)
    decreases |w|
  {
    if w != "" {
      assert text[p] == w[0];
      assert w == w[..1] + w[1..];
      Within(text, p, w[..1], w[1..]);
      SkipWhite(text, p + 1, w[1..]);
    }
  }

  lemma {:induction false} SkipDigits(text: string, p: nat, d: string)
    requires StartsAt(text, p, d) && (forall i :: 0 <= i < |d| ==> IsDec(d[i])) && !IsDec(At(text, p + |d|))
    ensures SkipDec(text, p) == p + |d|
    decreases |d|
  {
    if d != "" {
      assert text[p] == d[0];
      assert d == d[..1] + d[1..];
      Within(text, p, d[..1], d[1..]);
      SkipDigits(text, p + 1, d[1..]);
    }
  }

  // The first character of s, where text goes on with s and then with whatever is at p + |s|.
  lemma FirstOf(text: string, p: nat, s: string)
    requires StartsAt(text, p, s)
    ensures s != "" ==> At(text, p) == s[0]
    ensures s == "" ==> At(text, p) == At(text, p + |s|)
  {
    if s != "" {
      assert s[0] == text[p];
    }
  }

  lemma SignedEnd(text: string, p: nat, sign: string, d: string)
    requires (sign == "" || sign == "+" || sign == "-") && Digits(d) && EndsNumber(At(text, p + |sign| + |d|))
    requires StartsAt(text, p, sign) && StartsAt(text, p + |sign|, d)
    ensures SkipDec(text, SkipSign(text, p)) == p + |sign| + |d|
  {
    FirstOf(text, p, sign);
    FirstOf(text, p + |sign|, d);
    SkipDigits(text, p + |sign|, d);
  }

  // No number goes on with c.
  predicate EndsNumber(c: char) {
    !('0' <= c <= '9') && c != '.' && c != 'e' && c != 'E' && c != '+' && c != '-'
  }

  lemma ExponentEnd(text: string, p: nat, x: Exponent)
    requires GoodExponent(x) && StartsAt(text, p, ExponentText(x)) && EndsNumber(At(text, p + |ExponentText(x)|))
    ensures SkipExponent(text, p) == p + |ExponentText(x)|
    ensures !IsDec(At(text, p)) && At(text, p) != '.'
  {
    FirstOf(text, p, ExponentText(x));
    if x.Exponent? {
      assert ExponentText(x) == [x.e] + (x.sign + x.digits);
      Within(text, p, [x.e], x.sign + x.digits);
      Within(text, p + 1, x.sign, x.digits);
      SignedEnd(text, p + 1, x.sign, x.digits);
    }
  }

  lemma FractionEnd(text: string, p: nat, f: Fraction)
    requires GoodFraction(f) && StartsAt(text, p, FractionText(f))
    requires !IsDec(At(text, p + |FractionText(f)|)) && At(text, p + |FractionText(f)|) != '.'
    ensures SkipFraction(text, p) == p + |FractionText(f)|
    ensures !IsDec(At(text, p))
  {
    FirstOf(text, p, FractionText(f));
    if f.Fraction? {
      Within(text, p, ".", f.digits);
      SkipDigits(text, p + 1, f.digits);
    }
  }

  lemma SliceOf(text: string, p: nat, s: string)
    requires StartsAt(text, p, s)
    ensures text[p..p + |s|] == s
  {
  }

  lemma WholeEnd(text: string, p: nat, minus: bool, d: string)
    requires Digits(d) && StartsAt(text, p, if minus then "-" else "") && StartsAt(text, p + (if minus then 1 else 0), d)
    requires (minus || d != "") && !IsDec(At(text, p + (if minus then 1 else 0) + |d|))
    ensures SkipDec(text, SkipSign(text, p)) == p + (if minus then 1 else 0) + |d|
    ensures if minus then At(text, p) == '-' && (d != "" ==> IsDec(At(text, p + 1))) else IsDec(At(text, p))
  {
    var a := p + (if minus then 1 else 0);
    FirstOf(text, p, if minus then "-" else "");
    FirstOf(text, a, d);
    SkipDigits(text, a, d);
  }

  // Where the number ends whose parts stand at p, a, b and c.
  lemma PartsEnd(text: string, p: nat, a: nat, b: nat, c: nat, d: Doc)
    requires d.DNumber? && GoodNumber(d)
    requires a == p + (if d.minus then 1 else 0) && b == a + |d.whole| && c == b + |FractionText(d.frac)|
    requires StartsAt(text, p, if d.minus then "-" else "") && StartsAt(text, a, d.whole)
    requires StartsAt(text, b, FractionText(d.frac)) && StartsAt(text, c, ExponentText(d.exp))
    requires EndsNumber(At(text, c + |ExponentText(d.exp)|))
    ensures NumberEnd(text, p) == c + |ExponentText(d.exp)|
    ensures StartsNumber(text, p, d.minus)
  {
    ExponentEnd(text, c, d.exp);
    FractionEnd(text, b, d.frac);
    FirstOf(text, b, FractionText(d.frac));
    WholeEnd(text, p, d.minus, d.whole);
    EndsAt(text, p, b, c, c + |ExponentText(d.exp)|);
  }

  predicate StartsNumber(text: string, p: nat, minus: bool) {
    if minus then At(text, p) == '-' && (IsDec(At(text, p + 1)) || At(text, p + 1) == '.') else IsDec(At(text, p))
  }

  lemma EndsAt(text: string, p: nat, b: nat, c: nat, e: nat)
    requires p <= b <= c <= e <= |text|
    requires SkipDec(text, SkipSign(text, p)) == b && SkipFraction(text, b) == c && SkipExponent(text, c) == e
    ensures NumberEnd(text, p) == e
  {
  }

  // Where the four parts of a number stand.
  lemma FourParts(text: string, p: nat, m: string, w: string, f: string, e: string, a: nat, b: nat, c: nat)
    requires StartsAt(text, p, m + w + f + e) && a == p + |m| && b == a + |w| && c == b + |f|
    ensures StartsAt(text, p, m) && StartsAt(text, a, w) && StartsAt(text, b, f) && StartsAt(text, c, e)
  {
    Within(text, p, m + w + f, e);
    Within(text, p, m + w, f);
    Within(text, p, m, w);
  }

  lemma NumberIsAt(text: string, p: nat, d: Doc)
    requires d.DNumber? && GoodNumber(d)
    requires StartsAt(text, p, NumberText(d)) && EndsNumber(At(text, p + |NumberText(d)|))
    ensures NumberEnd(text, p) == p + |NumberText(d)|
    ensures StartsNumber(text, p, d.minus)
  {
    var m, f, e := if d.minus then "-" else "", FractionText(d.frac), ExponentText(d.exp);
    var a := p + |m|;
    var b := a + |d.whole|;
    var c := b + |f|;
    FourParts(text, p, m, d.whole, f, e, a, b, c);
    assert p + |NumberText(d)| == c + |e|;
    PartsEnd(text, p, a, b, c, d);
  }

  lemma NumberLexed(text: string, p: nat, d: Doc)
    requires d.DNumber? && GoodNumber(d)
    requires StartsAt(text, p, NumberText(d)) && IsDelim(At(text, p + |NumberText(d)|))
    ensures p < |text| && (text[p] == '-' || IsDec(text[p]))
    ensures LexNumber(text, p) == Scalar(Number(NumberText(d)), p + |NumberText(d)|)
  {
    var t := NumberText(d);
    NumberIsAt(text, p, d);
    SliceOf(text, p, t);
    NumberIsLexed(text, p, d.minus, p + |t|);
  }

  lemma NumberIsLexed(text: string, p: nat, minus: bool, e: nat)
    requires p <= e <= |text| && NumberEnd(text, p) == e && StartsNumber(text, p, minus) && IsDelim(At(text, e))
    ensures p < |text| && (text[p] == '-' || IsDec(text[p])) && LexNumber(text, p) == Scalar(Number(text[p..e]), e)
  {
  }

  lemma {:induction false} HexLexed(text: string, p: nat, d: string, n: nat)
    requires n <= |d| && StartsAt(text, p, d) && forall i :: 0 <= i < |d| ==> HexDigit(d[i])
    ensures HexAt(text, p, n) == Code(CodeOf(d[..n]))
  {
    if n > 0 {
      HexLexed(text, p, d, n - 1);
      assert d[..n][..n - 1] == d[..n - 1];
      assert d[n - 1] == text[p + n - 1];
    }
  }

  lemma PieceLexed(text: string, p: nat, x: Piece)
    requires GoodPiece(x) && StartsAt(text, p, PieceText(x))
    ensures p + |PieceText(x)| <= |text|
    ensures LexString(text, p) == Prepend(PieceValue(x), LexString(text, p + |PieceText(x)|))
  {
    var s := PieceText(x);
    FirstOf(text, p, s);
    match x
    case Raw(c) =>
    case Short(letter) => assert s[1] == text[p + 1];
    case Unicode(d) => UnicodeLexed(text, p, d);
  }

  lemma UnicodeLexed(text: string, p: nat, d: string)
    requires GoodPiece(Unicode(d)) && StartsAt(text, p, "\\u" + d)
    ensures p + 6 <= |text| && text[p] == '\\' && text[p + 1] == 'u' && HexAt(text, p + 2, 4) == Code(CodeOf(d))
  {
    Within(text, p, "\\u", d);
    FirstOf(text, p, "\\u");
    assert "\\u"[1] == text[p + 1];
    HexLexed(text, p + 2, d, 4);
    assert d[..4] == d;
  }

  lemma {:induction false} PiecesLexed(text: string, p: nat, s: seq<Piece>)
    requires GoodPieces(s) && StartsAt(text, p, PiecesText(s) + "\"")
    ensures p + |PiecesText(s)| + 1 <= |text|
    ensures LexString(text, p) == Closed(PiecesValue(s), p + |PiecesText(s)| + 1)
    decreases |s|
  {
    if s == [] {
      assert PiecesText(s) + "\"" == "\"";
      FirstOf(text, p, "\"");
    } else {
      var rest := PiecesText(s[1..]) + "\"";
      assert PiecesText(s) + "\"" == PieceText(s[0]) + rest;
      Within(text, p, PieceText(s[0]), rest);
      PieceLexed(text, p, s[0]);
      PiecesLexed(text, p + |PieceText(s[0])|, s[1..]);
    }
  }

  lemma QuotedLexed(text: string, p: nat, s: seq<Piece>)
    requires GoodPieces(s) && StartsAt(text, p, Quoted(s)) && IsDelim(At(text, p + |Quoted(s)|))
    ensures p < |text| && text[p] == '"'
    ensures LexQuoted(text, p) == Scalar(String(PiecesValue(s)), p + |Quoted(s)|)
  {
    var t, size := PiecesText(s), |Quoted(s)|;
    BetweenQuotes(text, p, t, size);
    assert p + 1 + |t| + 1 == p + size;
    PiecesLexed(text, p + 1, s);
    ClosedLexed(text, p, PiecesValue(s), p + size);
  }

  lemma BetweenQuotes(text: string, p: nat, s: string, size: nat)
    requires StartsAt(text, p, "\"" + s + "\"") && size == |"\"" + s + "\""|
    ensures p < |text| && text[p] == '"' && StartsAt(text, p + 1, s + "\"") && size == |s| + 2
  {
    assert "\"" + s + "\"" == "\"" + (s + "\"");
    Within(text, p, "\"", s + "\"");
    FirstOf(text, p, "\"");
  }

  lemma ClosedLexed(text: string, p: nat, s: string, next: nat)
    requires p < |text| && LexString(text, p + 1) == Closed(s, next) && IsDelim(At(text, next))
    ensures LexQuoted(text, p) == Scalar(String(s), next)
  {
  }

  lemma WordLexed(text: string, p: nat, first: char, rest: string, v: Json)
    requires StartsAt(text, p, [first] + rest) && IsDelim(At(text, p + 1 + |rest|))
    ensures p < |text| && text[p] == first
    ensures LexWord(text, p, rest, v) == Scalar(v, p + 1 + |rest|)
  {
    Within(text, p, [first], rest);
    FirstOf(text, p, [first] + rest);
  }

  lemma ScalarLexed(text: string, p: nat, d: Doc)
    requires Good(d, true) && IsScalar(d) && StartsAt(text, p, Text(d)) && IsDelim(At(text, p + |Text(d)|))
    ensures p < |text| && StartsScalar(text[p])
    ensures LexScalar(text, p) == Scalar(Value(d), p + |Text(d)|)
  {
    match d
    case DNull =>
      assert Text(d) == ['n'] + "ull";
      WordLexed(text, p, 'n', "ull", Null);
    case DBool(b) =>
      if b {
        assert Text(d) == ['t'] + "rue";
        WordLexed(text, p, 't', "rue", Bool(true));
      } else {
        assert Text(d) == ['f'] + "alse";
        WordLexed(text, p, 'f', "alse", Bool(false));
      }
    case DNumber(_, _, _, _) => NumberLexed(text, p, d);
    case DString(pieces) => QuotedLexed(text, p, pieces);
  }
}
