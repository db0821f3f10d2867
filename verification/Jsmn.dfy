/** The JSON tokenizer of lib/jsmn/jsmn.c, working on an array of tokens. */
module Jsmn {
  import opened Bytes
  import opened JsmnSteps
  import JsmnTokens

  const JSMN_ERROR_NOMEM := -1
  const JSMN_ERROR_INVAL := -2
  const JSMN_ERROR_PART := -3

  function Code(e: Error): (r: int) {
    match e
    case NOMEM => -1
    case INVAL => -2
    case PART => -3
  }

  /** The codes of the errors, all different from any number of tokens. */
  lemma Codes()
    ensures Code(NOMEM) == -1 && Code(INVAL) == -2 && Code(PART) == -3
  {
  }

  /** jsmn_parser */
  class JsmnParser {
    var pos: nat
    var toknext: nat
    var toksuper: int
    /** For each token the one it was counted for. */
    ghost var parents: seq<int>

    /** jsmn_init */
    constructor ()
      ensures pos == 0 && toknext == 0 && toksuper == -1 && parents == []
    {
      pos, toknext, toksuper, parents := 0, 0, -1, [];
    }

    /** The parser and the tokens used so far, as a value. */
    ghost function State(tokens: array<Token>): (p: Parser)
      requires toknext <= tokens.Length
      reads this, tokens
    {
      Parser(pos, tokens[..toknext], toksuper, parents)
    }

    /** The tokens fit the array, and the parser belongs to them. */
    ghost predicate Valid(tokens: array<Token>)
      reads this, tokens
    {
      toknext <= tokens.Length && Sane(State(tokens))
    }

    /** The scan of jsmn_parse_primitive: pos is where the primitive ends. */
    method ScanPrimitive(js: string) returns (ok: bool)
      modifies `pos
      ensures var e := PrimitiveEnd(js, old(pos)); ok == e.Some? && (ok ==> pos == e.value) && (!ok ==> pos == old(pos))
    {
      var start := pos;
      while More(js, pos)
        invariant PrimitiveEnd(js, pos) == PrimitiveEnd(js, start)
        decreases |js| - pos
      {
        if Delimiter(js[pos]) { return true; }
        if !Printable(js[pos]) {
          pos := start;
          return false;
        }
        pos := pos + 1;
      }
      ok := true;
    }

    /** The digits behind \u; at most four, and fewer if the text ends. */
    method ScanHex(js: string) returns (ok: bool)
      modifies `pos
      ensures var e := HexEnd(js, old(pos), 4); ok == e.Some? && (ok ==> pos == e.value)
    {
      ghost var start := pos;
      var i := 0;
      while i < 4 && More(js, pos)
        invariant i <= 4 && HexEnd(js, pos, 4 - i) == HexEnd(js, start, 4)
      {
        if !Hex(js[pos]) { return false; }
        pos, i := pos + 1, i + 1;
      }
      ok := true;
    }

    /** The scan of jsmn_parse_string: pos is that of the closing quote, or where it was if there is none. */
    method ScanString(js: string) returns (r: int)
      requires pos < |js|
      modifies `pos
      ensures match StringEnd(js, old(pos) + 1)
        case At(q) => r == 0 && pos == q
        case Bad(e) => r == Code(e) && pos == old(pos)
    {
      var start := pos;
      pos := pos + 1;
      while More(js, pos)
        invariant start < pos && StringEnd(js, pos) == StringEnd(js, start + 1)
        decreases |js| - pos
      {
        var c := js[pos];
        if c == '\"' { return 0; }
        if c == '\\' && pos + 1 < |js| {
          pos := pos + 1;
          if js[pos] == 'u' {
            pos := pos + 1;
            var ok := ScanHex(js);
            if !ok {
              pos := start;
              return JSMN_ERROR_INVAL;
            }
            pos := pos - 1;
          } else if js[pos] !in "\"/\\bfrnt" {
            pos := start;
            return JSMN_ERROR_INVAL;
          }
        }
        pos := pos + 1;
      }
      pos := start;
      r := JSMN_ERROR_PART;
    }

    /** jsmn_alloc_token and jsmn_fill_token */
    method AddToken(tokens: array<Token>, numTokens: nat, t: Token) returns (ok: bool)
      requires toknext <= tokens.Length && numTokens <= tokens.Length
      modifies `toknext, tokens
      ensures ok == (old(toknext) < numTokens) && toknext == old(toknext) + (if ok then 1 else 0) <= tokens.Length
      ensures tokens[..toknext] == old(tokens[..toknext]) + if ok then [t] else []
    {
      if toknext >= numTokens { return false; }
      tokens[toknext] := t;
      toknext := toknext + 1;
      ok := true;
    }

    /** One more token for the superior one, counted before it is added here. */
    method Grow(tokens: array<Token>)
      requires Valid(tokens)
      modifies tokens
      ensures tokens[..toknext] == Bump(old(tokens[..toknext]), toksuper)
    {
      if toksuper != -1 {
        tokens[toksuper] := tokens[toksuper].(size := tokens[toksuper].size + 1);
      }
    }

    /** A token and its count, as Add has it; pos and the superior token are up to the caller. */
    method Append(tokens: array<Token>, numTokens: nat, t: Token) returns (ok: bool)
      requires Valid(tokens) && numTokens <= tokens.Length
      modifies `toknext, `parents, tokens
      ensures toknext <= tokens.Length && ok == (old(toknext) < numTokens)
      ensures if ok then
          && tokens[..toknext] == Bump(old(tokens[..toknext]), toksuper) + [t] && parents == old(parents) + [toksuper]
        else
          toknext == old(toknext) && tokens[..toknext] == old(tokens[..toknext]) && parents == old(parents)
    {
      hide Bump;
      if toknext < numTokens { Grow(tokens); }
      ok := AddToken(tokens, numTokens, t);
      if ok { parents := parents + [toksuper]; }
    }

    /** The loops that look for an open container, from token `from` downwards. */
    method FindOpen(tokens: array<Token>, from: int) returns (i: int)
      requires -1 <= from < toknext <= tokens.Length
      ensures i == LastOpen(tokens[..from + 1])
    {
      i := from;
      while i >= 0
        invariant -1 <= i <= from && LastOpen(tokens[..i + 1]) == LastOpen(tokens[..from + 1])
      {
        assert tokens[..i + 1][..i] == tokens[..i];
        if tokens[i].start != -1 && tokens[i].end == -1 { break; }
        i := i - 1;
      }
    }

    /** A closing bracket. */
    method CloseBracket(tokens: array<Token>, typ: Type) returns (ok: bool)
      requires Valid(tokens)
      modifies `pos, `toksuper, tokens
      ensures toknext <= tokens.Length
      ensures match Close(old(State(tokens)), typ)
        case Next(p) => ok && State(tokens) == p
        case Fail(e, p) => !ok && e == INVAL && State(tokens) == p
    {
      ghost var toks := tokens[..toknext];
      var i := FindOpen(tokens, toknext - 1);
      if i == -1 || tokens[i].typ != typ { return false; }
      tokens[i] := tokens[i].(end := pos + 1);
      assert tokens[..toknext] == toks[i := toks[i].(end := pos + 1)] && tokens[..i] == toks[..i];
      toksuper := FindOpen(tokens, i - 1);
      pos := pos + 1;
      ok := true;
    }

    /** What a step of the parser comes to, as a result code and a state. */
    ghost predicate Took(js: string, was: Parser, tokens: array<Token>, numTokens: nat, r: int)
      requires Sane(was) && More(js, was.pos) && toknext <= tokens.Length
      reads this, tokens
    {
      match Step(js, was, numTokens)
      case Next(p) => r == 0 && State(tokens) == p
      case Fail(e, p) => r == Code(e) && State(tokens) == p
    }

    /** An opening bracket. */
    method OpenBracket(js: string, tokens: array<Token>, numTokens: nat) returns (r: int)
      requires Valid(tokens) && numTokens <= tokens.Length && More(js, pos) && js[pos] in "{["
      modifies this, tokens
      ensures toknext <= tokens.Length && Took(js, old(State(tokens)), tokens, numTokens, r)
    {
      var ok := Append(tokens, numTokens, Token(if js[pos] == '{' then OBJECT else ARRAY, pos, -1, 0));
      if !ok { return JSMN_ERROR_NOMEM; }
      toksuper := toknext - 1;
      pos := pos + 1;
      r := 0;
    }

    /** jsmn_parse_string, and what follows it. */
    method ParseString(js: string, tokens: array<Token>, numTokens: nat) returns (r: int)
      requires Valid(tokens) && numTokens <= tokens.Length && More(js, pos) && js[pos] == '\"'
      modifies this, tokens
      ensures toknext <= tokens.Length && Took(js, old(State(tokens)), tokens, numTokens, r)
    {
      hide StringEnd, PrimitiveEnd, LastOpen, Comma, Bump;
      var start := pos;
      r := ScanString(js);
      if r < 0 { return; }
      var ok := Append(tokens, numTokens, Token(STRING, start + 1, pos, 0));
      if !ok {
        pos := start;
        return JSMN_ERROR_NOMEM;
      }
      pos := pos + 1;
    }

    /** jsmn_parse_primitive, and what follows it. */
    method ParsePrimitive(js: string, tokens: array<Token>, numTokens: nat) returns (r: int)
      requires Valid(tokens) && numTokens <= tokens.Length && More(js, pos) && js[pos] !in "{[}]\t\r\n :,\""
      modifies this, tokens
      ensures toknext <= tokens.Length && Took(js, old(State(tokens)), tokens, numTokens, r)
    {
      hide StringEnd, PrimitiveEnd, LastOpen, Comma, Bump;
      var start := pos;
      var found := ScanPrimitive(js);
      if !found { return JSMN_ERROR_INVAL; }
      var ok := Append(tokens, numTokens, Token(PRIMITIVE, start, pos, 0));
      if !ok {
        pos := start;
        return JSMN_ERROR_NOMEM;
      }
      r := 0;
    }

    /** A comma. */
    method TakeComma(tokens: array<Token>)
      requires Valid(tokens)
      modifies `pos, `toksuper
      ensures State(tokens) == old(State(tokens)).(pos := old(pos) + 1, super := Comma(old(State(tokens))))
    {
      if toksuper != -1 && tokens[toksuper].typ != ARRAY && tokens[toksuper].typ != OBJECT {
        var i := FindOpen(tokens, toknext - 1);
        if i != -1 { toksuper := i; }
      }
      pos := pos + 1;
    }

    /** The body of jsmn_parse's loop. */
    method TakeStep(js: string, tokens: array<Token>, numTokens: nat) returns (r: int)
      requires Valid(tokens) && numTokens <= tokens.Length && More(js, pos)
      modifies this, tokens
      ensures toknext <= tokens.Length && Took(js, old(State(tokens)), tokens, numTokens, r)
    {
      hide StringEnd, PrimitiveEnd, LastOpen, Comma, Close, Add;
      r := 0;
      match js[pos]
      case '{' => r := OpenBracket(js, tokens, numTokens);
      case '[' => r := OpenBracket(js, tokens, numTokens);
      case '}' =>
        var ok := CloseBracket(tokens, OBJECT);
        if !ok { r := JSMN_ERROR_INVAL; }
      case ']' =>
        var ok := CloseBracket(tokens, ARRAY);
        if !ok { r := JSMN_ERROR_INVAL; }
      case '\"' => r := ParseString(js, tokens, numTokens);
      case '\t' => pos := pos + 1;
      case '\r' => pos := pos + 1;
      case '\n' => pos := pos + 1;
      case ' ' => pos := pos + 1;
      case ':' => toksuper, pos := toknext - 1, pos + 1;
      case ',' => TakeComma(tokens);
      case _ => r := ParsePrimitive(js, tokens, numTokens);
    }

    lemma TookValid(js: string, was: Parser, tokens: array<Token>, numTokens: nat, r: int)
      requires Sane(was) && More(js, was.pos) && toknext <= tokens.Length && Took(js, was, tokens, numTokens, r)
      ensures Valid(tokens) && (r == 0 ==> was.pos < pos <= |js|)
    {
      hide Step;
    }

    /** jsmn_parse with an array of tokens. */
    method Parse(js: string, tokens: array<Token>, numTokens: nat) returns (r: int)
      requires Valid(tokens) && numTokens <= tokens.Length
      modifies this, tokens
      ensures Valid(tokens)
      ensures match Run(js, old(State(tokens)), numTokens)
        case Done(n, p) => r == n && State(tokens) == p
        case Stopped(e, p) => r == Code(e) && State(tokens) == p
    {
      hide Step, LastOpen;
      while More(js, pos)
        invariant Valid(tokens) && Run(js, State(tokens), numTokens) == Run(js, old(State(tokens)), numTokens)
        decreases |js| - pos
      {
        ghost var was := State(tokens);
        r := TakeStep(js, tokens, numTokens);
        TookValid(js, was, tokens, numTokens, r);
        if r < 0 { return; }
      }
      var i := FindOpen(tokens, toknext - 1);
      if i != -1 { return JSMN_ERROR_PART; }
      r := toknext;
    }

    /** jsmn_parse without an array, for a new parser: the number of tokens. */
    method Count(js: string) returns (r: int)
      requires toknext == 0
      modifies `pos, `toksuper
      ensures match CountTokens(js, old(pos), 0)
        case Total(n) => r == n
        case Failed(e) => r == Code(e)
    {
      var count := 0;
      while More(js, pos)
        invariant CountTokens(js, pos, count) == CountTokens(js, old(pos), 0)
        decreases |js| - pos
      {
        match js[pos] {
          case '{' => count := count + 1;
          case '[' => count := count + 1;
          case '\"' =>
            r := ScanString(js);
            if r < 0 { return; }
            count := count + 1;
          case ':' => toksuper := toknext - 1;
          case _ =>
            if js[pos] !in "}]\t\r\n ," {
              var found := ScanPrimitive(js);
              if !found { return JSMN_ERROR_INVAL; }
              pos, count := pos - 1, count + 1;
            }
        }
        pos := pos + 1;
      }
      r := count;
    }
  }

  const NO_TOKEN := Token(OBJECT, -1, -1, 0)

  /** What a call comes to, as code and tokens. */
  function Tokens(o: Outcome): (r: (int, seq<Token>)) {
    match o
    case Done(n, p) => (n, p.toks)
    case Stopped(e, p) => (Code(e), p.toks)
  }

  /** An error other than NOMEM stays whatever the room. */
  lemma NeverDone(js: string, n: nat, room: nat)
    requires Run(js, START, n).Stopped? && Run(js, START, n).error != NOMEM
    ensures !Run(js, START, room).Done?
  {
    if n <= room { Restart(js, START, n, room); } else { Restart(js, START, room, n); }
  }

  /** Counting first, and then parsing into an array of just that size: there always is room. */
  method CountAndParse(js: string) returns (r: int, toks: seq<Token>)
    ensures r != -1 && (r < 0 ==> forall room: nat :: !Run(js, START, room).Done?)
    ensures r >= 0 ==> r == |toks| && (r, toks) == Tokens(Run(js, START, r))
    ensures r >= 0 ==> JsmnTokens.AllRead(js, toks)
  {
    var p := new JsmnParser();
    r := p.Count(js);
    toks := [];
    if r < 0 {
      CountGrows(js, 0, 0);
      forall room: nat ensures !Run(js, START, room).Done? { CountAgrees(js, START, room); }
      return;
    }
    var tokens := new Token[r](_ => NO_TOKEN);
    p := new JsmnParser();
    assert p.State(tokens) == START;
    CountAgrees(js, START, r);
    RunKeepsSpans(js, START, r);
    JsmnTokens.RunReads(js, START, r);
    hide JsmnTokens.AllRead;
    ghost var n := r;
    r := p.Parse(js, tokens, tokens.Length);
    toks := tokens[..p.toknext];
    if r < 0 {
      forall room: nat ensures !Run(js, START, room).Done? { NeverDone(js, n, room); }
    }
  }

  /** After NOMEM, going on with a larger array gives what that array would have given at once. */
  method ParseAgain(js: string, small: nat, large: nat) returns (r: int, toks: seq<Token>)
    requires small <= large
    ensures (r, toks) == Tokens(Run(js, START, large))
  {
    hide Run;
    var p := new JsmnParser();
    var tokens := new Token[small](_ => NO_TOKEN);
    assert p.State(tokens) == START;
    Restart(js, START, small, large);
    r := p.Parse(js, tokens, small);
    if r == JSMN_ERROR_NOMEM {
      var more := new Token[large](_ => NO_TOKEN);
      forall k | 0 <= k < small { more[k] := tokens[k]; }
      assert p.State(more) == p.State(tokens);
      r := p.Parse(js, more, large);
      tokens := more;
    }
    toks := tokens[..p.toknext];
  }
}
