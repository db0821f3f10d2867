/** The JSON tokenizer of lib/jsmn/jsmn.c as steps on values: non-strict, without parent links. */
module JsmnSteps {
  import opened Bytes

  datatype Type = OBJECT | ARRAY | STRING | PRIMITIVE

  /** jsmntok_t: a span of the text, open as long as end is -1, and the number of tokens directly below. */
  datatype Token = Token(typ: Type, start: int, end: int, size: nat)

  datatype Error = NOMEM | INVAL | PART

  /**
    jsmn_parser with the tokens used so far.  parents says which token each one was counted for,
    or -1; the source only keeps the counts.
   */
  datatype Parser = Parser(pos: nat, toks: seq<Token>, super: int, parents: seq<int>)

  const START := Parser(0, [], -1, [])

  predicate More(js: string, pos: nat) { pos < |js| && js[pos] != '\0' }

  predicate IsOpen(t: Token) { t.start != -1 && t.end == -1 }

  // ---------------------------------------------------------------- strings and primitives

  predicate Delimiter(c: char) { c in ":\t\r\n ,]}" }

  predicate Printable(c: char) { ' ' <= c < '\U{7f}' }

  /** Where a primitive ends; nowhere if there is a character in it that is not allowed. */
  function PrimitiveEnd(js: string, pos: nat): (r: Option<nat>)
    ensures r.Some? ==> pos <= r.value && (pos <= |js| ==> r.value <= |js|)
    ensures r.Some? && More(js, pos) && !Delimiter(js[pos]) ==> pos < r.value
    decreases |js| - pos
  {
    if !More(js, pos) || Delimiter(js[pos]) then Some(pos)
    else if !Printable(js[pos]) then None
    else PrimitiveEnd(js, pos + 1)
  }

  predicate Hex(c: char) { '0' <= c <= '9' || 'A' <= c <= 'F' || 'a' <= c <= 'f' }

  /** Behind at most n hexadecimal digits; nowhere if there is something else among them. */
  function HexEnd(js: string, pos: nat, n: nat): (r: Option<nat>)
    ensures r.Some? ==> pos <= r.value && (pos <= |js| ==> r.value <= |js|)
    decreases n
  {
    if n == 0 || !More(js, pos) then Some(pos)
    else if !Hex(js[pos]) then None
    else HexEnd(js, pos + 1, n - 1)
  }

  datatype Quote = At(end: nat) | Bad(error: Error)

  /** Where the closing quote of a string is. */
  function StringEnd(js: string, pos: nat): (r: Quote)
    ensures r.At? ==> pos <= r.end < |js|
    ensures r.Bad? ==> r.error != NOMEM
    decreases |js| - pos
  {
    if !More(js, pos) then Bad(PART)
    else if js[pos] == '\"' then At(pos)
    else if js[pos] == '\\' && pos + 1 < |js| then
      if js[pos + 1] in "\"/\\bfrnt" then StringEnd(js, pos + 2)
      else if js[pos + 1] == 'u' then
        match HexEnd(js, pos + 2, 4)
        case None => Bad(INVAL)
        case Some(p) => StringEnd(js, p)
      else Bad(INVAL)
    else StringEnd(js, pos + 1)
  }

  // ---------------------------------------------------------------- steps

  /** The last open container, or -1. */
  function LastOpen(toks: seq<Token>): (i: int)
    ensures -1 <= i < |toks| && (i >= 0 ==> IsOpen(toks[i]))
    ensures forall k :: i < k < |toks| ==> !IsOpen(toks[k])
  {
    if toks == [] then -1
    else if IsOpen(toks[|toks| - 1]) then |toks| - 1
    else LastOpen(toks[..|toks| - 1])
  }

  /** One more token below i. */
  function Bump(toks: seq<Token>, i: int): (r: seq<Token>)
    requires -1 <= i < |toks|
    ensures |r| == |toks|
  {
    if i == -1 then toks else toks[i := toks[i].(size := toks[i].size + 1)]
  }

  datatype Result = Next(p: Parser) | Fail(error: Error, at: Parser)

  predicate Sane(p: Parser) { -1 <= p.super < |p.toks| && |p.parents| == |p.toks| }

  /** A new token, if there is room for it. */
  function Add(p: Parser, t: Token, pos: nat, super: int, room: nat): (r: Result)
    requires Sane(p)
  {
    if |p.toks| >= room then Fail(NOMEM, p)
    else Next(Parser(pos, Bump(p.toks, p.super) + [t], super, p.parents + [p.super]))
  }

  function Close(p: Parser, typ: Type): (r: Result)
    requires Sane(p)
  {
    var i := LastOpen(p.toks);
    if i == -1 || p.toks[i].typ != typ then Fail(INVAL, p)
    else Next(Parser(p.pos + 1, p.toks[i := p.toks[i].(end := p.pos + 1)], LastOpen(p.toks[..i]), p.parents))
  }

  /** Behind a comma the last open container is the superior one, if a token was that has no elements. */
  function Comma(p: Parser): (super: int)
    requires Sane(p)
    ensures -1 <= super < |p.toks|
  {
    if p.super != -1 && !p.toks[p.super].typ.ARRAY? && !p.toks[p.super].typ.OBJECT? && LastOpen(p.toks) != -1
    then LastOpen(p.toks) else p.super
  }

  /** What the body of jsmn_parse's loop does. */
  function Step(js: string, p: Parser, room: nat): (r: Result)
    requires Sane(p) && More(js, p.pos)
    ensures r.Next? ==> Sane(r.p) && p.pos < r.p.pos && (r.p.pos <= |js|)
    ensures r.Fail? ==> r.at == p
  {
    var c := js[p.pos];
    if c == '{' || c == '[' then
      Add(p, Token(if c == '{' then OBJECT else ARRAY, p.pos, -1, 0), p.pos + 1, |p.toks|, room)
    else if c == '}' || c == ']' then Close(p, if c == '}' then OBJECT else ARRAY)
    else if c == '\"' then
      match StringEnd(js, p.pos + 1)
      case Bad(e) => Fail(e, p)
      case At(q) => Add(p, Token(STRING, p.pos + 1, q, 0), q + 1, p.super, room)
    else if c in "\t\r\n " then Next(p.(pos := p.pos + 1))
    else if c == ':' then Next(p.(pos := p.pos + 1, super := |p.toks| - 1))
    else if c == ',' then Next(p.(pos := p.pos + 1, super := Comma(p)))
    else
      match PrimitiveEnd(js, p.pos)
      case None => Fail(INVAL, p)
      case Some(e) => Add(p, Token(PRIMITIVE, p.pos, e, 0), e, p.super, room)
  }

  datatype Outcome = Done(count: nat, p: Parser) | Stopped(error: Error, at: Parser)

  /** jsmn_parse with an array of tokens. */
  function Run(js: string, p: Parser, room: nat): (r: Outcome)
    requires Sane(p)
    ensures var q := if r.Done? then r.p else r.at; Sane(q)
    decreases |js| - p.pos
  {
    if !More(js, p.pos) then
      if LastOpen(p.toks) == -1 then Done(|p.toks|, p) else Stopped(PART, p)
    else
      match Step(js, p, room)
      case Next(q) => Run(js, q, room)
      case Fail(e, q) => Stopped(e, q)
  }

  // ---------------------------------------------------------------- more room

  /** Room matters only when it runs out. */
  lemma StepMoreRoom(js: string, p: Parser, room: nat, more: nat)
    requires Sane(p) && More(js, p.pos) && room <= more
    ensures Step(js, p, room) != Fail(NOMEM, p) ==> Step(js, p, more) == Step(js, p, room)
  {
  }

  /**
    After NOMEM the call can be repeated with a larger array: it goes on as if the array had been
    that large from the beginning.
   */
  lemma {:induction false} Restart(js: string, p: Parser, room: nat, more: nat)
    requires Sane(p) && room <= more
    ensures var r := Run(js, p, room);
      Run(js, p, more) == if r.Stopped? && r.error == NOMEM then Run(js, r.at, more) else r
    decreases |js| - p.pos
  {
    hide Step;
    if More(js, p.pos) {
      StepMoreRoom(js, p, room, more);
      var s := Step(js, p, room);
      if s.Next? { Restart(js, s.p, room, more); }
    }
  }

  // ---------------------------------------------------------------- counting

  datatype Total = Total(n: nat) | Failed(error: Error)

  /** jsmn_parse without an array: it looks at strings and primitives, and only counts brackets. */
  function CountTokens(js: string, pos: nat, count: nat): (r: Total)
    decreases |js| - pos
  {
    if !More(js, pos) then Total(count)
    else
      var c := js[pos];
      if c == '{' || c == '[' then CountTokens(js, pos + 1, count + 1)
      else if c in "}]\t\r\n :," then CountTokens(js, pos + 1, count)
      else if c == '\"' then
        match StringEnd(js, pos + 1)
        case Bad(e) => Failed(e)
        case At(q) => CountTokens(js, q + 1, count + 1)
      else
        match PrimitiveEnd(js, pos)
        case None => Failed(INVAL)
        case Some(e) => CountTokens(js, e, count + 1)
  }

  lemma {:induction false} CountGrows(js: string, pos: nat, count: nat)
    ensures var r := CountTokens(js, pos, count); if r.Total? then r.n >= count else r.error != NOMEM
    decreases |js| - pos
  {
    if More(js, pos) {
      var c := js[pos];
      var more := if c in "{[" then count + 1 else count;
      if c in "{[}]\t\r\n :," {
        CountGrows(js, pos + 1, more);
      } else if c == '\"' {
        var q := StringEnd(js, pos + 1);
        if q.At? { CountGrows(js, q.end + 1, count + 1); }
      } else {
        var e := PrimitiveEnd(js, pos);
        if e.Some? { CountGrows(js, e.value, count + 1); }
      }
    }
  }

  /** Counting goes on behind a step as it does before it; when there is no room, the count is larger. */
  lemma CountStep(js: string, p: Parser, room: nat)
    requires Sane(p) && More(js, p.pos)
    ensures var s, r := Step(js, p, room), CountTokens(js, p.pos, |p.toks|);
      && (s.Next? ==> r == CountTokens(js, s.p.pos, |s.p.toks|))
      && (s.Fail? && s.error == NOMEM ==> r.Failed? || r.n > room)
  {
    hide StringEnd, PrimitiveEnd, LastOpen, Comma;
    var c := js[p.pos];
    if c == '{' || c == '[' {
      CountGrows(js, p.pos + 1, |p.toks| + 1);
    } else if c == '\"' {
      var q := StringEnd(js, p.pos + 1);
      if q.At? { CountGrows(js, q.end + 1, |p.toks| + 1); }
    } else if c !in "}]\t\r\n :," {
      var e := PrimitiveEnd(js, p.pos);
      if e.Some? { CountGrows(js, e.value, |p.toks| + 1); }
    }
  }

  /** The count is that of the tokens, and an array with room for it never is too small. */
  lemma {:induction false} CountAgrees(js: string, p: Parser, room: nat)
    requires Sane(p)
    ensures var r, n := Run(js, p, room), CountTokens(js, p.pos, |p.toks|);
      && (r.Done? ==> n == Total(r.count))
      && (n.Total? && n.n <= room ==> r.Done? || r.error != NOMEM)
    decreases |js| - p.pos
  {
    hide Step, CountTokens;
    if More(js, p.pos) {
      CountStep(js, p, room);
      var s := Step(js, p, room);
      if s.Next? { CountAgrees(js, s.p, room); }
    } else {
      CountEnd(js, p.pos, |p.toks|);
    }
  }

  lemma CountEnd(js: string, pos: nat, count: nat)
    requires !More(js, pos)
    ensures CountTokens(js, pos, count) == Total(count)
  {
  }

  // ---------------------------------------------------------------- spans

  /** A token lies before pos, and a string has its quotes around it. */
  predicate Placed(t: Token, pos: nat) {
    match t.typ
    case STRING => 1 <= t.start <= t.end < pos
    case PRIMITIVE => 0 <= t.start < t.end <= pos
    case _ => 0 <= t.start < pos && (t.end == -1 || t.start < t.end <= pos)
  }

  /** Of two tokens the later one is inside the earlier one or behind it; inside if that is open. */
  predicate Ordered(a: Token, b: Token) {
    if IsOpen(a) then a.start < b.start
    else b.start >= a.end || (!IsOpen(b) && a.start < b.start && b.end <= a.end)
  }

  ghost predicate Spans(p: Parser) {
    && (forall i :: 0 <= i < |p.toks| ==> Placed(p.toks[i], p.pos))
    && (forall i, j :: 0 <= i < j < |p.toks| ==> Ordered(p.toks[i], p.toks[j]))
  }

  lemma AddKeepsSpans(p: Parser, t: Token, pos: nat, super: int, room: nat)
    requires Sane(p) && Spans(p) && p.pos <= t.start && p.pos <= pos && Placed(t, pos)
    ensures var r := Add(p, t, pos, super, room); r.Next? ==> Spans(r.p)
  {
    var r := Add(p, t, pos, super, room);
    if r.Next? {
      forall i | 0 <= i < |p.toks| ensures r.p.toks[i].(size := p.toks[i].size) == p.toks[i] {}
    }
  }

  lemma CloseKeepsSpans(p: Parser, typ: Type)
    requires Sane(p) && Spans(p)
    ensures var r := Close(p, typ); r.Next? ==> Spans(r.p)
  {
  }

  lemma StepKeepsSpans(js: string, p: Parser, room: nat)
    requires Sane(p) && Spans(p) && More(js, p.pos)
    ensures var r := Step(js, p, room); r.Next? ==> Spans(r.p)
  {
    hide StringEnd, PrimitiveEnd, LastOpen, Comma, Add, Close;
    var c := js[p.pos];
    if c == '{' || c == '[' {
      AddKeepsSpans(p, Token(if c == '{' then OBJECT else ARRAY, p.pos, -1, 0), p.pos + 1, |p.toks|, room);
    } else if c == '}' || c == ']' {
      CloseKeepsSpans(p, if c == '}' then OBJECT else ARRAY);
    } else if c == '\"' {
      var q := StringEnd(js, p.pos + 1);
      if q.At? { AddKeepsSpans(p, Token(STRING, p.pos + 1, q.end, 0), q.end + 1, p.super, room); }
    } else if c !in "\t\r\n :," {
      var e := PrimitiveEnd(js, p.pos);
      if e.Some? { AddKeepsSpans(p, Token(PRIMITIVE, p.pos, e.value, 0), e.value, p.super, room); }
    }
  }

  /** At every point of a run: so after a successful one any two spans are nested or apart. */
  lemma {:induction false} RunKeepsSpans(js: string, p: Parser, room: nat)
    requires Sane(p) && Spans(p) && p.pos <= |js|
    ensures var r := Run(js, p, room);
      && Spans(if r.Done? then r.p else r.at)
      && (r.Done? ==> r.p.pos <= |js| && LastOpen(r.p.toks) == -1 && r.count == |r.p.toks|)
    decreases |js| - p.pos
  {
    hide Step, Spans;
    if More(js, p.pos) {
      StepKeepsSpans(js, p, room);
      var s := Step(js, p, room);
      if s.Next? { RunKeepsSpans(js, s.p, room); }
    }
  }

  /** After a successful run any two spans are apart or nested, and all lie in the text. */
  lemma NestedOrApart(js: string, room: nat, i: nat, j: nat)
    requires Run(js, START, room).Done? && i < j < |Run(js, START, room).p.toks|
    ensures var toks := Run(js, START, room).p.toks;
      && 0 <= toks[i].start <= toks[i].end <= |js| && 0 <= toks[j].start <= toks[j].end <= |js|
      && (toks[i].end <= toks[j].start || (toks[i].start < toks[j].start && toks[j].end <= toks[i].end))
  {
    RunKeepsSpans(js, START, room);
    var p := Run(js, START, room).p;
    assert !IsOpen(p.toks[i]) && Placed(p.toks[i], p.pos) && !IsOpen(p.toks[j]) && Placed(p.toks[j], p.pos);
  }

  // ---------------------------------------------------------------- sizes

  function Occurrences(s: seq<int>, x: int): (n: nat) {
    if s == [] then 0 else Occurrences(s[..|s| - 1], x) + if s[|s| - 1] == x then 1 else 0
  }

  lemma OccurrencesSnoc(s: seq<int>, x: int, y: int)
    ensures Occurrences(s + [y], x) == Occurrences(s, x) + if y == x then 1 else 0
  {
    assert (s + [y])[..|s|] == s;
  }

  lemma {:induction false} NoOccurrence(s: seq<int>, x: int)
    requires forall k :: 0 <= k < |s| ==> s[k] < x
    ensures Occurrences(s, x) == 0
  {
    if s != [] { NoOccurrence(s[..|s| - 1], x); }
  }

  /** Every token counts the later tokens that were put below it. */
  ghost predicate Sizes(p: Parser) {
    && |p.parents| == |p.toks|
    && (forall j :: 0 <= j < |p.parents| ==> -1 <= p.parents[j] < j)
    && (forall i :: 0 <= i < |p.toks| ==> p.toks[i].size == Occurrences(p.parents, i))
  }

  lemma AddKeepsSizes(p: Parser, t: Token, pos: nat, super: int, room: nat)
    requires Sane(p) && Sizes(p) && t.size == 0
    ensures var r := Add(p, t, pos, super, room); r.Next? ==> Sizes(r.p)
  {
    var r := Add(p, t, pos, super, room);
    if r.Next? {
      forall i | 0 <= i < |r.p.toks| ensures r.p.toks[i].size == Occurrences(r.p.parents, i) {
        OccurrencesSnoc(p.parents, i, p.super);
        if i == |p.toks| { NoOccurrence(p.parents, i); }
      }
    }
  }

  lemma StepKeepsSizes(js: string, p: Parser, room: nat)
    requires Sane(p) && Sizes(p) && More(js, p.pos)
    ensures var r := Step(js, p, room); r.Next? ==> Sizes(r.p)
  {
    hide StringEnd, PrimitiveEnd, LastOpen, Comma, Add, Occurrences;
    var c := js[p.pos];
    if c == '{' || c == '[' {
      AddKeepsSizes(p, Token(if c == '{' then OBJECT else ARRAY, p.pos, -1, 0), p.pos + 1, |p.toks|, room);
    } else if c == '\"' {
      var q := StringEnd(js, p.pos + 1);
      if q.At? { AddKeepsSizes(p, Token(STRING, p.pos + 1, q.end, 0), q.end + 1, p.super, room); }
    } else if c !in "}]\t\r\n :," {
      var e := PrimitiveEnd(js, p.pos);
      if e.Some? { AddKeepsSizes(p, Token(PRIMITIVE, p.pos, e.value, 0), e.value, p.super, room); }
    }
  }

  lemma {:induction false} RunKeepsSizes(js: string, p: Parser, room: nat)
    requires Sane(p) && Sizes(p)
    ensures var r := Run(js, p, room); Sizes(if r.Done? then r.p else r.at)
    decreases |js| - p.pos
  {
    hide Step, Sizes;
    if More(js, p.pos) {
      StepKeepsSizes(js, p, room);
      var s := Step(js, p, room);
      if s.Next? { RunKeepsSizes(js, s.p, room); }
    }
  }

  function SumSizes(toks: seq<Token>): (n: nat) {
    if toks == [] then 0 else SumSizes(toks[..|toks| - 1]) + toks[|toks| - 1].size
  }

  /** The entries of s from -1 to n - 1 that are at least 0. */
  lemma {:induction false} SumIsRest(toks: seq<Token>, s: seq<int>, n: nat)
    requires n <= |toks| && forall i :: 0 <= i < n ==> toks[i].size == Occurrences(s, i)
    ensures SumSizes(toks[..n]) == Between(s, n)
    decreases n
  {
    if n == 0 {
      BetweenNone(s);
    } else {
      SumIsRest(toks, s, n - 1);
      assert toks[..n][..n - 1] == toks[..n - 1];
      BetweenOneMore(s, n - 1);
    }
  }

  /** How many entries of s are in 0..n - 1. */
  function Between(s: seq<int>, n: nat): (c: nat) {
    if s == [] then 0 else Between(s[..|s| - 1], n) + if 0 <= s[|s| - 1] < n then 1 else 0
  }

  lemma {:induction false} BetweenNone(s: seq<int>)
    ensures Between(s, 0) == 0
  {
    if s != [] { BetweenNone(s[..|s| - 1]); }
  }

  lemma {:induction false} BetweenOneMore(s: seq<int>, n: nat)
    ensures Between(s, n + 1) == Between(s, n) + Occurrences(s, n)
  {
    if s != [] { BetweenOneMore(s[..|s| - 1], n); }
  }

  lemma {:induction false} BetweenAll(s: seq<int>, n: nat)
    requires forall k :: 0 <= k < |s| ==> -1 <= s[k] < n
    ensures Between(s, n) + Occurrences(s, -1) == |s|
  {
    if s != [] { BetweenAll(s[..|s| - 1], n); }
  }

  /** The sizes and the tokens that are below no other add up to the number of tokens. */
  lemma SizesAddUp(js: string, room: nat)
    requires Run(js, START, room).Done?
    ensures var r := Run(js, START, room); SumSizes(r.p.toks) + Occurrences(r.p.parents, -1) == r.count
  {
    RunKeepsSizes(js, START, room);
    RunKeepsSpans(js, START, room);
    var p := Run(js, START, room).p;
    assert p.toks[..|p.toks|] == p.toks;
    SumIsRest(p.toks, p.parents, |p.toks|);
    BetweenAll(p.parents, |p.toks|);
  }
}
