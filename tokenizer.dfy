/** The lexer of tokenizer.h: a one-token-lookahead cursor over the input
    characters.  `Advance` is the specification of one advance of the cursor;
    the class `Tokenizer` is the cursor itself, whose method `Next` updates its
    fields in place and is proved to agree with the specification. */
module Lexing {

  datatype Bracket = Open | Close

  /** The variant `Token` of tokenizer.h. */
  datatype Token =
    | NullToken
    | SymbolToken(name: string)
    | QuoteToken
    | DotToken
    | BracketToken(bracket: Bracket)
    | ConstantToken(value: int)

  predicate IsDigit(c: char) {
    '0' <= c <= '9'
  }

  /** The only characters the cursor skips between tokens. */
  predicate IsBlank(c: char) {
    c == ' ' || c == '\n'
  }

  /** `CheckSymbol`: may `c` continue a multi-character symbol? */
  predicate CheckSymbol(c: char) {
    c != '.' && c != '\'' && c != '(' && c != ')' && c != ' ' && c != '\n'
  }

  predicate AllDigits(s: string) {
    forall k :: 0 <= k < |s| ==> IsDigit(s[k])
  }

  /** The decimal value of a run of digits, read left to right. */
  function DecimalValue(d: string): nat
    requires AllDigits(d)
  {
    if d == [] then 0
    else DecimalValue(d[..|d| - 1]) * 10 + ((d[|d| - 1] as int) - ('0' as int))
  }

  /** The first index at or after `i` that is not a blank. */
  function SkipBlanks(s: string, i: nat): (j: nat)
    requires i <= |s|
    ensures i <= j <= |s|
    ensures forall k :: i <= k < j ==> IsBlank(s[k])
    ensures j == |s| || !IsBlank(s[j])
    decreases |s| - i
  {
    if i < |s| && IsBlank(s[i]) then SkipBlanks(s, i + 1) else i
  }

  /** The end of the run of digits that starts at `i`. */
  function DigitsEnd(s: string, i: nat): (j: nat)
    requires i <= |s|
    ensures i <= j <= |s|
    ensures AllDigits(s[i..j])
    ensures j == |s| || !IsDigit(s[j])
    decreases |s| - i
  {
    if i < |s| && IsDigit(s[i]) then
      var j := DigitsEnd(s, i + 1);
      assert s[i..j] == [s[i]] + s[i + 1..j];
      j
    else i
  }

  /** The end of a multi-character symbol continued from `i`: it stops at
      a digit, at a character `CheckSymbol` refuses, or at the end. */
  function SymbolEnd(s: string, i: nat): (j: nat)
    requires i <= |s|
    ensures i <= j <= |s|
    ensures forall k :: i <= k < j ==> !IsDigit(s[k]) && CheckSymbol(s[k])
    ensures j == |s| || IsDigit(s[j]) || !CheckSymbol(s[j])
    decreases |s| - i
  {
    if i < |s| && !IsDigit(s[i]) && CheckSymbol(s[i]) then SymbolEnd(s, i + 1) else i
  }

  /** The state of the cursor: the input, how much of it is consumed, the
      current token and the two flags `possible_unary_sign_` and `is_end_`. */
  datatype Lexer = Lexer(input: string, pos: nat, token: Token, possibleUnarySign: bool, isEnd: bool)

  /** What `Advance` needs of the state it starts from. */
  predicate Advanceable(l: Lexer) {
    l.pos <= |l.input| && (l.isEnd ==> l.pos == |l.input|)
  }

  /** The invariant of every state reached by `Advance`: the end flag is set
      exactly when the current token is `NullToken`, and only at the end. */
  predicate LexOk(l: Lexer) {
    Advanceable(l) && (l.isEnd <==> l.token.NullToken?)
  }

  /** One advance of the cursor (`Tokenizer::Next`). */
  function Advance(l: Lexer): (r: Lexer)
    requires Advanceable(l)
    ensures r.input == l.input && LexOk(r)
    ensures l.pos <= r.pos && Remaining(r) <= Remaining(l)
    ensures !l.isEnd ==> Remaining(r) < Remaining(l)
  {
    var s := l.input;
    var p := SkipBlanks(s, l.pos);
    if p == |s| then
      l.(pos := p, token := NullToken, isEnd := true)
    else if IsDigit(s[p]) then
      var q := DigitsEnd(s, p);
      l.(pos := q, token := ConstantToken(DecimalValue(s[p..q])), possibleUnarySign := false)
    else
      var ch := s[p];
      var nextIsDigit := p + 1 < |s| && IsDigit(s[p + 1]);
      if ch == '\'' then
        l.(pos := p + 1, token := QuoteToken, possibleUnarySign := false)
      else if ch == '(' then
        l.(pos := p + 1, token := BracketToken(Open), possibleUnarySign := true)
      else if ch == ')' then
        l.(pos := p + 1, token := BracketToken(Close), possibleUnarySign := false)
      else if ch == '.' then
        l.(pos := p + 1, token := DotToken, possibleUnarySign := false)
      else if ch == '-' && l.possibleUnarySign && nextIsDigit then
        var q := DigitsEnd(s, p + 1);
        var magnitude: int := DecimalValue(s[p + 1..q]);
        l.(pos := q, token := ConstantToken(-1 * magnitude), possibleUnarySign := false)
      else if ch == '+' && l.possibleUnarySign && nextIsDigit then
        var q := DigitsEnd(s, p + 1);
        l.(pos := q, token := ConstantToken(DecimalValue(s[p + 1..q])), possibleUnarySign := false)
      else if ch == '+' || ch == '-' || ch == '*' then
        l.(pos := p + 1, token := SymbolToken([ch]), possibleUnarySign := false)
      else
        var q := SymbolEnd(s, p + 1);
        l.(pos := q, token := SymbolToken(s[p..q]))
  }

  /** The state the constructor leaves: the first token of `s` is current. */
  function Start(s: string): (r: Lexer)
    ensures r.input == s && LexOk(r)
  {
    Advance(Lexer(s, 0, NullToken, true, false))
  }

  /** The cursor positioned just after `input[..p]`, with the unary-sign flag
      `sign`: its current token is the first token at or after `p`. */
  function At(input: string, p: nat, sign: bool): (r: Lexer)
    requires p <= |input|
    ensures r.input == input && LexOk(r)
  {
    Advance(Lexer(input, p, NullToken, sign, false))
  }

  /** A measure that every advance from a state before the end decreases. */
  function Remaining(l: Lexer): nat
    requires l.pos <= |l.input|
  {
    2 * (|l.input| - l.pos) + (if l.isEnd then 0 else 1)
  }

  // ---------------------------------------------------------------------
  // The cursor object

  /** `Tokenizer` of tokenizer.h, over a character sequence instead of an
      input stream: `pos` is how much of `input` the stream has handed out. */
  class Tokenizer {
    const input: string
    var pos: nat
    var token: Token
    var possibleUnarySign: bool
    var isEnd: bool

    ghost function State(): Lexer
      reads this
    {
      Lexer(input, pos, token, possibleUnarySign, isEnd)
    }

    /** The constructor reads the first token. */
    constructor (s: string)
      ensures State() == Start(s)
    {
      input := s;
      pos := 0;
      token := NullToken;
      possibleUnarySign := true;
      isEnd := false;
      new;
      Next();
    }

    /** `IsEnd`. */
    function IsEnd(): bool
      reads this
    {
      isEnd
    }

    /** `GetToken`: the current token, unchanged until `Next` is called. */
    function GetToken(): Token
      reads this
    {
      token
    }

    /** `*in_ >> number` started on a digit: consumes the run of digits and
        gives its decimal value. */
    method ExtractNumber() returns (n: nat)
      requires pos < |input| && IsDigit(input[pos])
      modifies this`pos
      ensures pos == DigitsEnd(input, old(pos))
      ensures n == DecimalValue(input[old(pos)..pos])
    {
      var start := pos;
      n := 0;
      while pos < |input| && IsDigit(input[pos])
        invariant start <= pos <= |input|
        invariant DigitsEnd(input, start) == DigitsEnd(input, pos)
        invariant AllDigits(input[start..pos])
        invariant n == DecimalValue(input[start..pos])
        decreases |input| - pos
      {
        assert input[start..pos + 1][..pos - start] == input[start..pos];
        n := n * 10 + ((input[pos] as int) - ('0' as int));
        pos := pos + 1;
      }
    }

    /** The loop at the head of `Next` that skips spaces and newlines. */
    method SkipBlanksInPlace()
      requires pos <= |input|
      modifies this`pos
      ensures pos == SkipBlanks(input, old(pos))
    {
      while pos < |input| && IsBlank(input[pos])
        invariant old(pos) <= pos <= |input|
        invariant SkipBlanks(input, old(pos)) == SkipBlanks(input, pos)
        decreases |input| - pos
      {
        pos := pos + 1;
      }
    }

    /** The loop of `Next` that accumulates a multi-character symbol whose
        first character is `first`, already consumed. */
    method ExtendSymbol(first: char) returns (buffer: string)
      requires 0 < pos <= |input| && input[pos - 1] == first
      modifies this`pos
      ensures pos == SymbolEnd(input, old(pos))
      ensures buffer == input[old(pos) - 1..pos]
    {
      buffer := [first];
      while pos < |input| && !IsDigit(input[pos]) && CheckSymbol(input[pos])
        invariant old(pos) <= pos <= |input|
        invariant SymbolEnd(input, old(pos)) == SymbolEnd(input, pos)
        invariant buffer == input[old(pos) - 1..pos]
        decreases |input| - pos
      {
        buffer := buffer + [input[pos]];
        pos := pos + 1;
      }
    }

    /** `Next`: skips blanks, then reads one token and updates the flags. */
    method Next()
      requires Advanceable(State())
      modifies this
      ensures State() == Advance(old(State()))
    {
      SkipBlanksInPlace();

      if pos == |input| {
        isEnd := true;
        token := NullToken;
        return;
      }

      if IsDigit(input[pos]) {
        var number := ExtractNumber();
        token := ConstantToken(number);
        possibleUnarySign := false;
        return;
      }

      var ch := input[pos];
      pos := pos + 1;
      var nextIsDigit := pos < |input| && IsDigit(input[pos]);

      if ch == '\'' {
        token := QuoteToken;
        possibleUnarySign := false;
        return;
      }
      if ch == '(' {
        token := BracketToken(Open);
        possibleUnarySign := true;
        return;
      }
      if ch == ')' {
        token := BracketToken(Close);
        possibleUnarySign := false;
        return;
      }
      if ch == '.' {
        token := DotToken;
        possibleUnarySign := false;
        return;
      }
      if ch == '-' && possibleUnarySign && nextIsDigit {
        var number := ExtractNumber();
        var magnitude: int := number;
        token := ConstantToken(-1 * magnitude);
        possibleUnarySign := false;
        return;
      }
      if ch == '+' && possibleUnarySign && nextIsDigit {
        var number := ExtractNumber();
        token := ConstantToken(number);
        possibleUnarySign := false;
        return;
      }
      if ch == '+' || ch == '-' || ch == '*' {
        token := SymbolToken([ch]);
        possibleUnarySign := false;
        return;
      }

      var buffer := ExtendSymbol(ch);
      token := SymbolToken(buffer);
    }
  }

  // ---------------------------------------------------------------------
  // Properties of the cursor

  /** Every advance from a state before the end consumes input or reaches
      the end, so the reader built on the cursor terminates. */
  lemma NextProgress(l: Lexer)
    requires LexOk(l) && !l.isEnd
    ensures Remaining(Advance(l)) < Remaining(l)
  {
  }

  /** At the end the token is `NullToken`, and advancing changes nothing. */
  lemma EndIsStable(l: Lexer)
    requires LexOk(l) && l.isEnd
    ensures l.token == NullToken
    ensures Advance(l) == l
  {
  }

  lemma {:induction false} SkipBlanksOver(s: string, i: nat, k: nat)
    requires i <= k <= |s|
    requires forall m :: i <= m < k ==> IsBlank(s[m])
    ensures SkipBlanks(s, i) == SkipBlanks(s, k)
    decreases k - i
  {
    if i < k {
      SkipBlanksOver(s, i + 1, k);
    }
  }

  /** Spaces and newlines before a token are skipped: the cursor reads the
      same token, to the same position, as if they were not there; blanks
      up to the end of the input produce no token at all. */
  lemma BlanksProduceNoToken(l: Lexer, k: nat)
    requires Advanceable(l) && l.pos <= k <= |l.input| && !l.isEnd
    requires forall m :: l.pos <= m < k ==> IsBlank(l.input[m])
    ensures Advance(l) == Advance(l.(pos := k))
    ensures k == |l.input| ==> Advance(l).token == NullToken && Advance(l).isEnd
  {
    SkipBlanksOver(l.input, l.pos, k);
  }

  /** A tab is not skipped: wherever the first character after the
      spaces and newlines is a tab, it starts a symbol token that runs on
      as `CheckSymbol` allows. */
  lemma TabIsNotBlank(l: Lexer)
    requires Advanceable(l)
    requires SkipBlanks(l.input, l.pos) < |l.input| && l.input[SkipBlanks(l.input, l.pos)] == '\t'
    ensures var p := SkipBlanks(l.input, l.pos);
      Advance(l) == l.(pos := SymbolEnd(l.input, p + 1), token := SymbolToken(l.input[p..SymbolEnd(l.input, p + 1)]))
    ensures Advance(l).token.name[0] == '\t'
  {
  }

  /** A run of digits (not preceded by a sign) becomes one constant token
      carrying its decimal value, and clears the unary-sign flag. */
  lemma DigitRunIsOneConstant(l: Lexer, n: nat)
    requires Advanceable(l) && 0 < n && l.pos + n <= |l.input|
    requires AllDigits(l.input[l.pos..l.pos + n])
    requires l.pos + n == |l.input| || !IsDigit(l.input[l.pos + n])
    ensures Advance(l).token == ConstantToken(DecimalValue(l.input[l.pos..l.pos + n]))
    ensures Advance(l).pos == l.pos + n
    ensures !Advance(l).possibleUnarySign
  {
    var s := l.input;
    var p := l.pos;
    assert IsDigit(s[p]) by {
      assert s[p] == s[p..p + n][0];
    }
    assert SkipBlanks(s, p) == p;
    DigitsEndOf(s, p, n);
  }

  lemma {:induction false} DigitsEndOf(s: string, p: nat, n: nat)
    requires p + n <= |s|
    requires AllDigits(s[p..p + n])
    requires p + n == |s| || !IsDigit(s[p + n])
    ensures DigitsEnd(s, p) == p + n
    decreases n
  {
    if n > 0 {
      assert IsDigit(s[p]) by {
        assert s[p] == s[p..p + n][0];
      }
      assert s[p + 1..p + n] == s[p..p + n][1..];
      DigitsEndOf(s, p + 1, n - 1);
    }
  }

  /** A `-` or `+` directly followed by a digit folds into a signed constant
      exactly when the unary-sign flag is set; otherwise it is a one-character
      symbol and the digits form the next token. */
  lemma SignFoldsOnlyWhenPossible(l: Lexer, n: nat)
    requires Advanceable(l) && 0 < n && l.pos + 1 + n <= |l.input|
    requires l.input[l.pos] == '-' || l.input[l.pos] == '+'
    requires AllDigits(l.input[l.pos + 1..l.pos + 1 + n])
    requires l.pos + 1 + n == |l.input| || !IsDigit(l.input[l.pos + 1 + n])
    ensures var v := DecimalValue(l.input[l.pos + 1..l.pos + 1 + n]);
      l.possibleUnarySign ==>
        Advance(l).token == ConstantToken(if l.input[l.pos] == '-' then 0 - v else v)
        && Advance(l).pos == l.pos + 1 + n
    ensures !l.possibleUnarySign ==>
      Advance(l).token == SymbolToken([l.input[l.pos]]) && Advance(l).pos == l.pos + 1
    ensures !Advance(l).possibleUnarySign
  {
    var s := l.input;
    var p := l.pos;
    assert SkipBlanks(s, p) == p;
    assert IsDigit(s[p + 1]) by {
      assert s[p + 1] == s[p + 1..p + 1 + n][0];
    }
    if l.possibleUnarySign {
      DigitsEndOf(s, p + 1, n);
    }
  }

  /** How one advance sets the unary-sign flag: true after `(`, false after
      a constant, `'`, `)`, `.` or a one-character operator, unchanged after
      a multi-character symbol and at the end. */
  lemma UnarySignRule(l: Lexer)
    requires Advanceable(l)
    ensures var r := Advance(l);
      match r.token
      case BracketToken(Open) => r.possibleUnarySign
      case SymbolToken(name) =>
        r.possibleUnarySign == (if name == "+" || name == "-" || name == "*" then false else l.possibleUnarySign)
      case NullToken => r.possibleUnarySign == l.possibleUnarySign
      case _ => !r.possibleUnarySign
  {
    var s := l.input;
    var p := SkipBlanks(s, l.pos);
    if p < |s| && !IsDigit(s[p]) {
      var ch := s[p];
      if ch != '\'' && ch != '(' && ch != ')' && ch != '.' && ch != '+' && ch != '-' && ch != '*' {
        var q := SymbolEnd(s, p + 1);
        assert s[p..q][0] == ch;
      }
    }
  }

  /** A symbol token is never empty and contains no digit, blank, bracket,
      quote or dot; a multi-character one ends where the next character is a
      digit, a delimiter or the end of the input. */
  lemma SymbolTokenShape(l: Lexer)
    requires Advanceable(l)
    requires Advance(l).token.SymbolToken?
    ensures var name := Advance(l).token.name;
      && |name| > 0
      && (forall k :: 0 <= k < |name| ==> !IsDigit(name[k]) && CheckSymbol(name[k]))
      && Advance(l).input[Advance(l).pos - |name|..Advance(l).pos] == name
      && (name != "+" && name != "-" && name != "*" ==>
            Advance(l).pos == |l.input| || IsDigit(l.input[Advance(l).pos]) || !CheckSymbol(l.input[Advance(l).pos]))
  {
    var s := l.input;
    var p := SkipBlanks(s, l.pos);
    var ch := s[p];
    if ch != '+' && ch != '-' && ch != '*' {
      var q := SymbolEnd(s, p + 1);
      assert Advance(l).token.name == s[p..q];
      assert !IsDigit(ch) && CheckSymbol(ch);
      assert forall k :: 0 <= k < q - p ==> s[p..q][k] == s[p + k];
    }
  }

  /** `(`, `)`, `'` and `.` each yield exactly one token of their own and
      consume exactly one character. */
  lemma PunctuationIsOneToken(l: Lexer, ch: char)
    requires Advanceable(l) && l.pos < |l.input| && l.input[l.pos] == ch
    requires ch == '(' || ch == ')' || ch == '\'' || ch == '.'
    ensures Advance(l).pos == l.pos + 1
    ensures Advance(l).token == (if ch == '(' then BracketToken(Open)
                              else if ch == ')' then BracketToken(Close)
                              else if ch == '\'' then QuoteToken else DotToken)
  {
    assert SkipBlanks(l.input, l.pos) == l.pos;
  }
}
