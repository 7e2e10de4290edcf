// json_parse as a function of the text: what it accepts, where it stops and which tree it builds.
//
// A char of the text is one byte. The text is what stands before the terminating NUL, and At reads that NUL.
module GasonText {
  import opened Options

  const JSON_STACK_SIZE: nat := 32

  datatype Json =
    | Null
    | Bool(b: bool)
    | Number(text: string) // the characters of the number, as toSubString gives them
    | String(text: string)
    | List(isObject: bool, items: seq<Member>)

  // An element of an array has the key "".
  datatype Member = Member(key: string, value: Json)

  // JsonParseStatus. Overrun is no status of the parser: there it reads on behind the terminating NUL.
  datatype Status = BadNumber | BadString | BadIdentifier | StackOverflow | StackUnderflow | MismatchBracket
    | UnexpectedCharacter | UnquotedKey | BreakingBad | Overrun

  // ---- Character classes ----

  const NUL: char := '\0'

  predicate IsSpace(c: char) {
    c == '\t' || c == '\n' || c == '\U{b}' || c == '\U{c}' || c == '\r' || c == ' '
  }

  predicate IsDelim(c: char) {
    IsSpace(c) || c == NUL || c == ',' || c == ':' || c == ']' || c == '}'
  }

  predicate IsSign(c: char) {
    c == '+' || c == '-'
  }

  predicate IsDec(c: char) {
    '0' <= c <= '9'
  }

  predicate IsHex(c: char) {
    IsDec(c) || 'A' <= c <= 'F' || 'a' <= c <= 'f'
  }

  function CharToInt(c: char): (r: nat)
    requires IsHex(c)
    ensures r < 16
  {
    if c >= 'a' then c as int - 'a' as int + 10
    else if c >= 'A' then c as int - 'A' as int + 10
    else c as int - '0' as int
  }

  // ---- Reading ----

  function At(text: string, i: nat): char {
    if i < |text| then text[i] else NUL
  }

  function SkipSpace(text: string, p: nat): (r: nat)
    requires p <= |text|
    ensures p <= r <= |text| && !IsSpace(At(text, r))
    decreases |text| - p
  {
    if p < |text| && IsSpace(text[p]) then SkipSpace(text, p + 1) else p
  }

  function SkipDec(text: string, p: nat): (r: nat)
    requires p <= |text|
    ensures p <= r <= |text| && !IsDec(At(text, r))
    decreases |text| - p
  {
    if p < |text| && IsDec(text[p]) then SkipDec(text, p + 1) else p
  }

  function SkipSign(text: string, p: nat): (r: nat)
    requires p <= |text|
    ensures p <= r <= |text|
  {
    if IsSign(At(text, p)) then p + 1 else p
  }

  function SkipFraction(text: string, p: nat): (r: nat)
    requires p <= |text|
    ensures p <= r <= |text|
  {
    if At(text, p) == '.' then SkipDec(text, p + 1) else p
  }

  function SkipExponent(text: string, p: nat): (r: nat)
    requires p <= |text|
    ensures p <= r <= |text|
  {
    if At(text, p) == 'e' || At(text, p) == 'E' then SkipDec(text, SkipSign(text, p + 1)) else p
  }

  // consume_float: where the number that starts at p ends.
  function NumberEnd(text: string, p: nat): (r: nat)
    requires p <= |text|
    ensures p <= r <= |text|
  {
    SkipExponent(text, SkipFraction(text, SkipDec(text, SkipSign(text, p))))
  }

  predicate StartsAt(text: string, p: nat, s: string) {
    p + |s| <= |text| && forall i :: 0 <= i < |s| ==> s[i] == text[p + i]
  }

  // ---- Strings ----

  // What the escape \c stands for, if c is one of the single letters.
  function ShortEscape(c: char): Option<char> {
    match c
    case '\\' => Some('\\')
    case '"' => Some('"')
    case '/' => Some('/')
    case 'b' => Some('\U{8}')
    case 'f' => Some('\U{c}')
    case 'n' => Some('\n')
    case 'r' => Some('\r')
    case 't' => Some('\t')
    case _ => None
  }

  // The bytes stored for \uXXXX: one, two or three of them, by the table in section 3 of RFC 3629.
  function Utf8(c: nat): (r: string)
    requires c < 0x10000
    ensures 1 <= |r| <= 3
  {
    if c < 0x80 then [c as char]
    else if c < 0x800 then [(0xC0 + c / 64) as char, (0x80 + c % 64) as char]
    else [(0xE0 + c / 4096) as char, (0x80 + c / 64 % 64) as char, (0x80 + c % 64) as char]
  }

  // 16 to the n, for up to four digits.
  function Power16(n: nat): nat {
    if n == 0 then 1 else if n == 1 then 16 else if n == 2 then 256 else if n == 3 then 4096 else 65536
  }

  // The value of the hex digits at p, .., p + n - 1, or where the first of them that is none stands.
  datatype Hex = Code(value: nat) | NoHex(at: nat)

  function HexAt(text: string, p: nat, n: nat): (r: Hex)
    ensures r.Code? ==> p + n <= |text| || n == 0
    ensures r.Code? && n <= 4 ==> r.value < Power16(n)
  {
    if n == 0 then Code(0)
    else
      match HexAt(text, p, n - 1)
      case NoHex(at) => NoHex(at)
      case Code(v) =>
        if IsHex(At(text, p + n - 1)) then Code(v * 16 + CharToInt(At(text, p + n - 1))) else NoHex(p + n - 1)
  }

  // The rest of a string literal: closed by a quote, left open by the end of the text, or with a bad escape.
  datatype Literal = Closed(s: string, next: nat) | Open(s: string, next: nat) | Broken(at: nat)

  function Prepend(s: string, l: Literal): Literal {
    match l
    case Closed(t, next) => Closed(s + t, next)
    case Open(t, next) => Open(s + t, next)
    case Broken(at) => Broken(at)
  }

  function LexString(text: string, p: nat): (r: Literal)
    requires p <= |text|
    ensures r.Closed? ==> p < r.next <= |text| && |r.s| < r.next - p
    ensures r.Open? ==> r.next <= |text| && At(text, r.next) == NUL && p <= r.next && |r.s| <= r.next - p
    decreases |text| - p
  {
    var c := At(text, p);
    if c == NUL then Open("", p)
    else if c == '"' then Closed("", p + 1)
    else if c != '\\' then Prepend([c], LexString(text, p + 1))
    else
      var e := At(text, p + 1);
      if ShortEscape(e).Some? then Prepend([ShortEscape(e).value], LexString(text, p + 2))
      else if e != 'u' then Broken(p + 1)
      else
        match HexAt(text, p + 2, 4)
        case NoHex(at) => Broken(at)
        case Code(v) => Prepend(Utf8(v), LexString(text, p + 6))
  }

  // ---- Tokens ----

  datatype Lexeme = Scalar(value: Json, next: nat) | Wrong(status: Status, at: nat)

  function LexNumber(text: string, p: nat): (r: Lexeme)
    requires p < |text| && (text[p] == '-' || IsDec(text[p]))
    ensures r.Scalar? ==> p < r.next <= |text|
  {
    if text[p] == '-' && !IsDec(At(text, p + 1)) && At(text, p + 1) != '.' then Wrong(BadNumber, p + 1)
    else
      var e := NumberEnd(text, p);
      if IsDelim(At(text, e)) then Scalar(Number(text[p..e]), e) else Wrong(BadNumber, e)
  }

  // A literal left open keeps, behind what was decoded, the text up to the NUL that was not written over.
  function LexQuoted(text: string, p: nat): (r: Lexeme)
    requires p < |text|
    ensures r.Scalar? ==> p < r.next <= |text|
  {
    match LexString(text, p + 1)
    case Broken(at) => Wrong(BadString, at)
    case Closed(s, next) => if IsDelim(At(text, next)) then Scalar(String(s), next) else Wrong(BadString, next)
    case Open(s, next) => Scalar(String(s + text[p + 1 + |s|..next]), next)
  }

  function LexWord(text: string, p: nat, rest: string, v: Json): (r: Lexeme)
    requires p < |text|
    ensures r.Scalar? ==> p < r.next <= |text|
  {
    if StartsAt(text, p + 1, rest) && IsDelim(At(text, p + 1 + |rest|)) then Scalar(v, p + 1 + |rest|)
    else Wrong(BadIdentifier, p)
  }

  predicate StartsScalar(c: char) {
    c == '-' || IsDec(c) || c == '"' || c == 't' || c == 'f' || c == 'n'
  }

  function LexScalar(text: string, p: nat): (r: Lexeme)
    requires p < |text| && StartsScalar(text[p])
    ensures r.Scalar? ==> p < r.next <= |text|
  {
    match text[p]
    case '"' => LexQuoted(text, p)
    case 't' => LexWord(text, p, "rue", Bool(true))
    case 'f' => LexWord(text, p, "alse", Bool(false))
    case 'n' => LexWord(text, p, "ull", Null)
    case _ => LexNumber(text, p)
  }

  // Where the token at p ends, be it a scalar or a single character.
  function TokenEnd(text: string, p: nat): (r: nat)
    requires p < |text|
    ensures p < r <= |text|
  {
    if StartsScalar(text[p]) && LexScalar(text, p).Scalar? then LexScalar(text, p).next else p + 1
  }

  // Where the last token of the text starts, with last as the one before pos.
  function LastToken(text: string, pos: nat, last: nat): nat
    requires pos <= |text|
    decreases |text| - pos
  {
    if At(text, pos) == NUL then last
    else
      var p := SkipSpace(text, pos);
      if At(text, p) == NUL then p else LastToken(text, TokenEnd(text, p), p)
  }

  // ---- The parser ----

  // One open bracket: what is inside it so far, and the key that waits for its value.
  datatype Frame = Frame(isObject: bool, key: Option<string>, items: seq<Member>)

  datatype Outcome = Parsed(value: Json, next: nat) | Failed(status: Status, at: nat)

  datatype Progress = More(pos: nat, stack: seq<Frame>, separator: bool) | Stop(outcome: Outcome)

  // A value is complete: it is the result, a key, or a member of the innermost bracket.
  function Complete(v: Json, start: nat, next: nat, stack: seq<Frame>): Progress {
    if stack == [] then Stop(Parsed(v, next))
    else
      var outer, top := stack[..|stack| - 1], stack[|stack| - 1];
      if top.isObject && top.key.None? then
        if v.String? then More(next, outer + [top.(key := Some(v.text))], false) else Stop(Failed(UnquotedKey, start))
      else
        var key := if top.isObject then top.key.value else "";
        More(next, outer + [top.(key := None, items := top.items + [Member(key, v)])], false)
  }

  // One round of the loop of json_parse.
  function Step(text: string, pos: nat, stack: seq<Frame>, separator: bool): (r: Progress)
    requires pos <= |text| && (stack == [] ==> separator)
    ensures r.More? ==> pos < r.pos <= |text| && (r.stack == [] ==> r.separator)
  {
    if At(text, pos) == NUL then Stop(Failed(BreakingBad, pos))
    else
      var p := SkipSpace(text, pos);
      var c := At(text, p);
      if c == NUL then Stop(Failed(Overrun, p))
      else if StartsScalar(c) then
        match LexScalar(text, p)
        case Wrong(status, at) => Stop(Failed(status, at))
        case Scalar(v, next) => Complete(v, p, next, stack)
      else if c == ']' || c == '}' then
        if stack == [] then Stop(Failed(StackUnderflow, p))
        else
          var top := stack[|stack| - 1];
          if top.isObject != (c == '}') then Stop(Failed(MismatchBracket, p))
          else Complete(List(top.isObject, top.items), p, p + 1, stack[..|stack| - 1])
      else if c == '[' || c == '{' then
        if |stack| == JSON_STACK_SIZE then Stop(Failed(StackOverflow, p))
        else More(p + 1, stack + [Frame(c == '{', None, [])], separator)
      else if c == ':' then
        if separator || stack[|stack| - 1].key.None? then Stop(Failed(UnexpectedCharacter, p))
        else More(p + 1, stack, true)
      else if c == ',' then
        if separator || stack[|stack| - 1].key.Some? then Stop(Failed(UnexpectedCharacter, p))
        else More(p + 1, stack, true)
      else Stop(Failed(UnexpectedCharacter, p))
  }

  function Run(text: string, pos: nat, stack: seq<Frame>, separator: bool): Outcome
    requires pos <= |text| && (stack == [] ==> separator)
    decreases |text| - pos
  {
    match Step(text, pos, stack, separator)
    case Stop(outcome) => outcome
    case More(next, stack', separator') => Run(text, next, stack', separator')
  }

  function Parse(text: string): Outcome {
    Run(text, 0, [], true)
  }

  // From a on, the parser ends with r.
  ghost predicate Ends(text: string, a: Progress, r: Outcome) {
    match a
    case Stop(outcome) => outcome == r
    case More(pos, stack, separator) =>
      pos <= |text| && (stack == [] ==> separator) && Run(text, pos, stack, separator) == r
  }
}
