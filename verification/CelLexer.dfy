/** The cel-lite lexer. */
module CelLexer {
  import opened JsonValues
  import opened CelSyntax

  datatype LexError = UnterminatedString | UnexpectedChar(c: char)

  predicate IsSpace(c: char) { c == ' ' || c == '\t' || c == '\n' || c == '\r' }

  predicate IsDigit(c: char) { '0' <= c <= '9' }

  predicate IsNumberChar(c: char) { IsDigit(c) || c == '.' }

  predicate IsLetter(c: char) { 'A' <= c <= 'Z' || 'a' <= c <= 'z' || c == '_' }

  predicate IsWordChar(c: char) { IsLetter(c) || IsDigit(c) }

  function NumberRun(s: string): (n: nat)
    ensures n <= |s|
  {
    if s != "" && IsNumberChar(s[0]) then 1 + NumberRun(s[1..]) else 0
  }

  function WordRun(s: string): (n: nat)
    ensures n <= |s|
  {
    if s != "" && IsWordChar(s[0]) then 1 + WordRun(s[1..]) else 0
  }

  /** The text after an opening quote: the unescaped contents and the index of the closing quote. */
  function Quoted(s: string, quote: char): (r: Option<(string, nat)>)
    ensures r.Some? ==> r.value.1 < |s|
  {
    if s == "" then None
    else if s[0] == quote then Some(("", 0))
    else if s[0] == '\\' && |s| > 1 then
      var r := Quoted(s[2..], quote);
      if r.None? then None else Some(([s[1]] + r.value.0, r.value.1 + 2))
    else
      var r := Quoted(s[1..], quote);
      if r.None? then None else Some(([s[0]] + r.value.0, r.value.1 + 1))
  }

  // JavaScript's Number() on a run of digits and dots

  function Digits(s: string): nat {
    if s == "" then 0
    else 10 * Digits(s[..|s| - 1]) + (if IsDigit(s[|s| - 1]) then s[|s| - 1] as int - '0' as int else 0)
  }

  function Pow10(n: nat): (r: nat)
    ensures r > 0
  {
    if n == 0 then 1 else 10 * Pow10(n - 1)
  }

  function DotIndex(s: string): (n: nat)
    ensures n <= |s|
  {
    if s == "" || s[0] == '.' then 0 else 1 + DotIndex(s[1..])
  }

  /** `None` is NaN: a second dot. */
  function NumberOf(s: string): Option<real> {
    var d := DotIndex(s);
    if d == |s| then Some(Digits(s) as real)
    else
      var frac := s[d + 1..];
      if '.' in frac then None
      else Some(Digits(s[..d]) as real + Digits(frac) as real / Pow10(|frac|) as real)
  }

  function WordToken(w: string): Token {
    if w == "true" then TBool(true)
    else if w == "false" then TBool(false)
    else if w == "null" then TNull
    else if w == "in" then TPunct(In)
    else TIdent(w)
  }

  function PunctText(p: Punct): string {
    match p
    case LParen => "("
    case RParen => ")"
    case LBracket => "["
    case RBracket => "]"
    case Comma => ","
    case Dot => "."
    case Bang => "!"
    case EqEq => "=="
    case BangEq => "!="
    case Less => "<"
    case LessEq => "<="
    case Greater => ">"
    case GreaterEq => ">="
    case AndAnd => "&&"
    case OrOr => "||"
    case In => "in"
  }

  function TwoChar(a: char, b: char): Option<Punct> {
    if b == '=' then
      if a == '=' then Some(EqEq) else if a == '!' then Some(BangEq)
      else if a == '<' then Some(LessEq) else if a == '>' then Some(GreaterEq) else None
    else if a == '&' && b == '&' then Some(AndAnd)
    else if a == '|' && b == '|' then Some(OrOr)
    else None
  }

  function OneChar(a: char): Option<Punct> {
    if a == '(' then Some(LParen)
    else if a == ')' then Some(RParen)
    else if a == '.' then Some(Dot)
    else if a == '<' then Some(Less)
    else if a == '>' then Some(Greater)
    else if a == '!' then Some(Bang)
    else if a == ',' then Some(Comma)
    else if a == '[' then Some(LBracket)
    else if a == ']' then Some(RBracket)
    else None
  }

  /** What the lexer does at the front of a non-empty text. */
  datatype Step = Skip | Emit(t: Token, n: nat) | Stop(error: LexError)

  function StepAt(s: string): (r: Step)
    requires s != ""
    ensures r.Emit? ==> 0 < r.n <= |s|
  {
    var ch := s[0];
    if IsSpace(ch) then Skip
    else if ch == '\'' || ch == '"' then
      var q := Quoted(s[1..], ch);
      if q.None? then Stop(UnterminatedString) else Emit(TStr(q.value.0), q.value.1 + 2)
    else if IsDigit(ch) then Emit(TNum(NumberOf(s[..NumberRun(s)])), NumberRun(s))
    else if IsLetter(ch) then Emit(WordToken(s[..WordRun(s)]), WordRun(s))
    else if |s| > 1 && TwoChar(ch, s[1]).Some? then Emit(TPunct(TwoChar(ch, s[1]).value), 2)
    else if OneChar(ch).Some? then Emit(TPunct(OneChar(ch).value), 1)
    else Stop(UnexpectedChar(ch))
  }

  function Prepend(ts: seq<Token>, r: Result<seq<Token>, LexError>): Result<seq<Token>, LexError> {
    if r.Err? then r else Ok(ts + r.value)
  }

  function Lex(s: string): Result<seq<Token>, LexError>
    decreases |s|
  {
    if s == "" then Ok([Eof])
    else
      match StepAt(s)
      case Skip => Lex(s[1..])
      case Emit(t, n) => Prepend([t], Lex(s[n..]))
      case Stop(e) => Err(e)
  }

  // The loops

  /** A scan result seen from `k` characters earlier, with `out` already read. */
  function Shifted(out: string, k: nat, r: Option<(string, nat)>): Option<(string, nat)> {
    if r.None? then None else Some((out + r.value.0, r.value.1 + k))
  }

  lemma QuotedStep(s: string, quote: char, out: string, k: nat)
    requires s != "" && s[0] != quote
    ensures s[0] == '\\' && |s| > 1 ==>
              Shifted(out, k, Quoted(s, quote)) == Shifted(out + [s[1]], k + 2, Quoted(s[2..], quote))
    ensures !(s[0] == '\\' && |s| > 1) ==>
              Shifted(out, k, Quoted(s, quote)) == Shifted(out + [s[0]], k + 1, Quoted(s[1..], quote))
  {
    var n := if s[0] == '\\' && |s| > 1 then 2 else 1;
    var r := Quoted(s[n..], quote);
    if r.Some? { assert out + ([s[n - 1]] + r.value.0) == (out + [s[n - 1]]) + r.value.0; }
  }

  /** One turn of the loop over a string literal. */
  lemma QuotedTurn(src: string, start: nat, end: nat, quote: char, out: string)
    requires start <= end < |src| && src[end] != quote
    requires QuotedSoFar(src, start, end, quote, out)
    ensures if src[end] == '\\' && end + 1 < |src|
            then QuotedSoFar(src, start, end + 2, quote, out + [src[end + 1]])
            else QuotedSoFar(src, start, end + 1, quote, out + [src[end]])
  {
    QuotedStep(src[end..], quote, out, end - start);
    assert src[end..][1..] == src[end + 1..];
    if end + 1 < |src| { assert src[end..][2..] == src[end + 2..]; }
  }

  lemma NothingShifted(r: Option<(string, nat)>)
    ensures Shifted("", 0, r) == r
  {
    if r.Some? { assert "" + r.value.0 == r.value.0; }
  }

  /** What the loop keeps: the scan from `start` is the scan from `end`, shifted. */
  ghost predicate QuotedSoFar(src: string, start: nat, end: nat, quote: char, out: string)
    requires start <= end <= |src|
  {
    Quoted(src[start..], quote) == Shifted(out, end - start, Quoted(src[end..], quote))
  }

  lemma QuotedEnd(src: string, start: nat, end: nat, quote: char, out: string)
    requires start <= end <= |src| && (end < |src| ==> src[end] == quote)
    ensures Shifted(out, end - start, Quoted(src[end..], quote)) == if end == |src| then None else Some((out, end - start))
  {
    if end < |src| { assert src[end..][0] == quote && out + "" == out; }
  }

  method ScanQuoted(src: string, start: nat, quote: char) returns (out: string, end: nat)
    requires start <= |src|
    ensures start <= end <= |src|
    ensures Quoted(src[start..], quote) == if end == |src| then None else Some((out, end - start))
  {
    out, end := "", start;
    NothingShifted(Quoted(src[start..], quote));
    while end < |src| && src[end] != quote
      invariant start <= end <= |src|
      invariant QuotedSoFar(src, start, end, quote, out)
    {
      QuotedTurn(src, start, end, quote, out);
      if src[end] == '\\' && end + 1 < |src| {
        out, end := out + [src[end + 1]], end + 2;
      } else {
        out, end := out + [src[end]], end + 1;
      }
    }
    QuotedEnd(src, start, end, quote, out);
  }

  method ScanNumber(src: string, start: nat) returns (end: nat)
    requires start <= |src|
    ensures start <= end <= |src| && end - start == NumberRun(src[start..])
  {
    end := start;
    while end < |src| && IsNumberChar(src[end])
      invariant start <= end <= |src|
      invariant NumberRun(src[start..]) == end - start + NumberRun(src[end..])
    {
      assert src[end..][1..] == src[end + 1..];
      end := end + 1;
    }
  }

  method ScanWord(src: string, start: nat) returns (end: nat)
    requires start <= |src|
    ensures start <= end <= |src| && end - start == WordRun(src[start..])
  {
    end := start;
    while end < |src| && IsWordChar(src[end])
      invariant start <= end <= |src|
      invariant WordRun(src[start..]) == end - start + WordRun(src[end..])
    {
      assert src[end..][1..] == src[end + 1..];
      end := end + 1;
    }
  }

  /** One turn of the main loop. */
  method ScanStep(src: string, i: nat) returns (step: Step)
    requires i < |src|
    ensures step == StepAt(src[i..])
  {
    var ch := src[i];
    ghost var s := src[i..];
    if IsSpace(ch) { return Skip; }
    if ch == '\'' || ch == '"' {
      var out, end := ScanQuoted(src, i + 1, ch);
      assert src[i + 1..] == s[1..];
      return if end >= |src| then Stop(UnterminatedString) else Emit(TStr(out), end + 1 - i);
    }
    if IsDigit(ch) {
      var end := ScanNumber(src, i);
      assert src[i..end] == s[..end - i];
      return Emit(TNum(NumberOf(src[i..end])), end - i);
    }
    if IsLetter(ch) {
      var end := ScanWord(src, i);
      assert src[i..end] == s[..end - i];
      return Emit(WordToken(src[i..end]), end - i);
    }
    if i + 1 < |src| && TwoChar(ch, src[i + 1]).Some? {
      return Emit(TPunct(TwoChar(ch, src[i + 1]).value), 2);
    }
    if OneChar(ch).Some? { return Emit(TPunct(OneChar(ch).value), 1); }
    return Stop(UnexpectedChar(ch));
  }

  /** One turn of the loop, seen from the tokens read so far. */
  lemma LexTurn(tokens: seq<Token>, s: string)
    requires s != ""
    ensures StepAt(s).Skip? ==> Prepend(tokens, Lex(s)) == Prepend(tokens, Lex(s[1..]))
    ensures StepAt(s).Emit? ==> Prepend(tokens, Lex(s)) == Prepend(tokens + [StepAt(s).t], Lex(s[StepAt(s).n..]))
    ensures StepAt(s).Stop? ==> Prepend(tokens, Lex(s)) == Err(StepAt(s).error)
  {
    if StepAt(s).Emit? {
      var t, rest := StepAt(s).t, Lex(s[StepAt(s).n..]);
      if rest.Ok? { assert tokens + ([t] + rest.value) == (tokens + [t]) + rest.value; }
    }
  }

  method Tokenize(src: string) returns (r: Result<seq<Token>, LexError>)
    ensures r == Lex(src)
  {
    var tokens: seq<Token> := [];
    var i := 0;
    assert src[0..] == src && (Lex(src).Ok? ==> tokens + Lex(src).value == Lex(src).value);
    while i < |src|
      invariant i <= |src|
      invariant Lex(src) == Prepend(tokens, Lex(src[i..]))
    {
      var step := ScanStep(src, i);
      LexTurn(tokens, src[i..]);
      match step {
        case Skip =>
          assert src[i..][1..] == src[i + 1..];
          i := i + 1;
        case Emit(t, n) =>
          assert src[i..][n..] == src[i + n..];
          tokens := tokens + [t];
          i := i + n;
        case Stop(e) =>
          return Err(e);
      }
    }
    assert src[i..] == "";
    return Ok(tokens + [Eof]);
  }

  /** Every token list ends in its only eof. */
  lemma {:induction false} LexEndsInEof(s: string)
    requires Lex(s).Ok?
    ensures var ts := Lex(s).value; |ts| > 0 && ts[|ts| - 1] == Eof && Eof !in ts[..|ts| - 1]
    decreases |s|
  {
    if s != "" {
      match StepAt(s) {
        case Skip => LexEndsInEof(s[1..]);
        case Emit(t, n) =>
          LexEndsInEof(s[n..]);
          var ts, rest := Lex(s).value, Lex(s[n..]).value;
          assert ts[..|ts| - 1] == [t] + rest[..|rest| - 1];
        case Stop(_) =>
      }
    }
  }

  // Printing tokens

  function Escape(s: string): string {
    if s == "" then ""
    else (if s[0] == '"' || s[0] == '\\' then ['\\', s[0]] else [s[0]]) + Escape(s[1..])
  }

  function Decimal(n: nat): string {
    if n < 10 then [('0' as int + n) as char] else Decimal(n / 10) + [('0' as int + n % 10) as char]
  }

  predicate IsIdentifier(w: string) {
    && w != "" && IsLetter(w[0]) && (forall c | c in w :: IsWordChar(c))
    && w !in {"true", "false", "null", "in"}
  }

  /** Tokens with a text of their own: natural numbers, and identifiers that are not keywords. */
  predicate Writable(t: Token) {
    match t
    case TNum(n) => n.Some? && n.value >= 0.0 && n.value.Floor as real == n.value
    case TIdent(w) => IsIdentifier(w)
    case Eof => false
    case _ => true
  }

  function TokenText(t: Token): string
    requires Writable(t)
  {
    match t
    case TStr(s) => "\"" + Escape(s) + "\""
    case TNum(n) => Decimal(n.value.Floor)
    case TBool(b) => if b then "true" else "false"
    case TNull => "null"
    case TIdent(w) => w
    case TPunct(p) => PunctText(p)
  }

  /** Each token followed by a space. */
  function Text(ts: seq<Token>): string
    requires forall t | t in ts :: Writable(t)
  {
    if ts == [] then "" else TokenText(ts[0]) + " " + Text(ts[1..])
  }

  lemma {:induction false} QuotedEscape(s: string, rest: string)
    ensures Quoted(Escape(s) + "\"" + rest, '"') == Some((s, |Escape(s)|))
  {
    var t := Escape(s) + "\"" + rest;
    if s != "" {
      QuotedEscape(s[1..], rest);
      var tail := Escape(s[1..]) + "\"" + rest;
      if s[0] == '"' || s[0] == '\\' {
        assert t == ['\\', s[0]] + tail;
        assert t[2..] == tail;
      } else {
        assert t == [s[0]] + tail;
        assert t[1..] == tail;
      }
      assert [s[0]] + s[1..] == s;
    }
  }

  lemma {:induction false} NumberRunOf(w: string, rest: string)
    requires forall c | c in w :: IsNumberChar(c)
    ensures NumberRun(w + " " + rest) == |w|
  {
    var s := w + " " + rest;
    if w != "" {
      NumberRunOf(w[1..], rest);
      assert s[1..] == w[1..] + " " + rest;
    }
  }

  lemma {:induction false} WordRunOf(w: string, rest: string)
    requires forall c | c in w :: IsWordChar(c)
    ensures WordRun(w + " " + rest) == |w|
  {
    var s := w + " " + rest;
    if w != "" {
      WordRunOf(w[1..], rest);
      assert s[1..] == w[1..] + " " + rest;
    }
  }

  lemma {:induction false} DecimalDigits(n: nat)
    ensures Decimal(n) != "" && (forall c | c in Decimal(n) :: IsDigit(c)) && Digits(Decimal(n)) == n
  {
    var d := Decimal(n);
    if n < 10 {
      assert d[..0] == "";
    } else {
      DecimalDigits(n / 10);
      assert d[..|d| - 1] == Decimal(n / 10);
    }
  }

  lemma {:induction false} NoDot(s: string)
    requires forall c | c in s :: IsDigit(c)
    ensures DotIndex(s) == |s|
  {
    if s != "" {
      assert s[0] in s;
      NoDot(s[1..]);
    }
  }

  lemma StringStep(v: string, rest: string)
    ensures StepAt("\"" + Escape(v) + "\"" + " " + rest) == Emit(TStr(v), |Escape(v)| + 2)
  {
    var s := "\"" + Escape(v) + "\"" + " " + rest;
    QuotedEscape(v, " " + rest);
    assert s[1..] == Escape(v) + "\"" + (" " + rest);
  }

  lemma NumberStep(n: nat, rest: string)
    ensures StepAt(Decimal(n) + " " + rest) == Emit(TNum(Some(n as real)), |Decimal(n)|)
  {
    var w := Decimal(n);
    var s := w + " " + rest;
    DecimalDigits(n);
    NumberRunOf(w, rest);
    NoDot(w);
    assert s[..|w|] == w && w[0] in w && s[0] == w[0];
  }

  lemma PunctStep(p: Punct, rest: string)
    requires p != In
    ensures StepAt(PunctText(p) + " " + rest) == Emit(TPunct(p), |PunctText(p)|)
  {
    var w := PunctText(p);
    var s := w + " " + rest;
    assert s[0] == w[0] && s[|w|] == ' ' && (|w| == 2 ==> s[1] == w[1]);
  }

  /** A written token is read back, and the scan stops at the space after it. */
  lemma StepReadsToken(t: Token, rest: string)
    requires Writable(t)
    ensures StepAt(TokenText(t) + " " + rest) == Emit(t, |TokenText(t)|)
  {
    match t {
      case TStr(v) => StringStep(v, rest);
      case TNum(n) => NumberStep(n.value.Floor, rest);
      case TBool(b) => WordStep(TokenText(t), rest);
      case TNull => WordStep(TokenText(t), rest);
      case TIdent(w) => WordStep(w, rest);
      case TPunct(p) => if p == In { WordStep("in", rest); } else { PunctStep(p, rest); }
    }
  }

  lemma WordStep(w: string, rest: string)
    requires w != "" && IsLetter(w[0]) && forall c | c in w :: IsWordChar(c)
    ensures StepAt(w + " " + rest) == Emit(WordToken(w), |w|)
  {
    WordRunOf(w, rest);
    assert (w + " " + rest)[..|w|] == w;
  }

  /** Lexing the text of a token list returns the list. */
  lemma {:induction false} LexText(ts: seq<Token>)
    requires forall t | t in ts :: Writable(t)
    ensures Lex(Text(ts)) == Ok(ts + [Eof])
  {
    if ts == [] {
      assert ts + [Eof] == [Eof];
    } else {
      LexText(ts[1..]);
      var w, rest := TokenText(ts[0]), Text(ts[1..]);
      var s := Text(ts);
      assert s == w + " " + rest;
      StepReadsToken(ts[0], rest);
      assert s[|w|..] == " " + rest && (" " + rest)[1..] == rest;
      assert Lex(" " + rest) == Lex(rest);
      assert ts + [Eof] == [ts[0]] + (ts[1..] + [Eof]);
    }
  }
}
