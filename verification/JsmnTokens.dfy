/** What the tokens of jsmn stand for in the text, character by character. */
module JsmnTokens {
  import opened Bytes
  import opened JsmnSteps

  // ---------------------------------------------------------------- primitives

  /** js[start..end] has no delimiter and only printable characters, and the text or the primitive ends there. */
  ghost predicate IsPrimitive(js: string, start: int, end: int) {
    && 0 <= start <= end <= |js|
    && (forall k :: start <= k < end ==> js[k] !in ":\t\r\n ,]}" && 32 <= js[k] as int < 127)
    && (end < |js| ==> js[end] in ":\t\r\n ,]}" || js[end] == '\0')
  }

  lemma {:induction false} PrimitiveIs(js: string, pos: nat)
    requires pos <= |js|
    ensures var e := PrimitiveEnd(js, pos); e.Some? ==> IsPrimitive(js, pos, e.value)
    decreases |js| - pos
  {
    if More(js, pos) && !Delimiter(js[pos]) && Printable(js[pos]) {
      PrimitiveIs(js, pos + 1);
    }
  }

  /** There is only one end. */
  lemma {:induction false} PrimitiveEndsThere(js: string, pos: nat, end: nat)
    requires IsPrimitive(js, pos, end)
    ensures PrimitiveEnd(js, pos) == Some(end)
    decreases end - pos
  {
    if pos < end { PrimitiveEndsThere(js, pos + 1, end); }
  }

  // ---------------------------------------------------------------- strings

  /** The backslashes directly in front of k, from pos on. */
  function Backslashes(js: string, pos: nat, k: nat): (n: nat)
    requires k <= |js|
  {
    if k <= pos || js[k - 1] != '\\' then 0 else 1 + Backslashes(js, pos, k - 1)
  }

  predicate Escaped(js: string, pos: nat, k: nat)
    requires k <= |js|
  {
    Backslashes(js, pos, k) % 2 == 1
  }

  predicate HexDigit(c: char) {
    var x := c as int;
    48 <= x <= 57 || 65 <= x <= 70 || 97 <= x <= 102
  }

  /** What follows a backslash at k that is not escaped itself. */
  predicate Escape(js: string, k: nat, end: nat)
    requires k < end <= |js|
  {
    && k + 1 < end && js[k + 1] in "\"/\\bfrntu"
    && (js[k + 1] == 'u' ==> k + 6 <= end && forall j :: k + 2 <= j < k + 6 ==> HexDigit(js[j]))
  }

  /** The text of a string up to the first quote that is not escaped. */
  ghost predicate IsString(js: string, start: nat, end: nat) {
    && start <= end < |js| && js[end] == '\"' && !Escaped(js, start, end)
    && (forall k :: start <= k < end && js[k] == '\"' ==> Escaped(js, start, k))
    && (forall k :: start <= k < end && js[k] == '\\' && !Escaped(js, start, k) ==> Escape(js, k, end))
    && (forall k :: start <= k < end ==> js[k] != '\0')
  }

  /** A character that is no backslash decouples what follows from what was before. */
  lemma {:induction false} BackslashesBehind(js: string, pos: nat, from: nat, k: nat)
    requires pos < from <= k <= |js| && js[from - 1] != '\\'
    ensures Backslashes(js, pos, k) == Backslashes(js, from, k)
    decreases k
  {
    if k > from { BackslashesBehind(js, pos, from, k - 1); }
  }

  /** So does an escaped backslash, as far as escaping goes. */
  lemma {:induction false} EscapedBehind(js: string, pos: nat, k: nat)
    requires pos + 2 <= k <= |js| && js[pos] == '\\' && js[pos + 1] == '\\'
    ensures Escaped(js, pos, k) == Escaped(js, pos + 2, k)
    ensures Backslashes(js, pos, k) == Backslashes(js, pos + 2, k)
      || Backslashes(js, pos, k) == Backslashes(js, pos + 2, k) + 2
    decreases k
  {
    if k > pos + 2 {
      EscapedBehind(js, pos, k - 1);
    } else {
      assert Backslashes(js, pos, pos + 1) == 1 && Backslashes(js, pos, pos + 2) == 2;
    }
  }

  lemma {:induction false} HexIs(js: string, pos: nat, n: nat)
    ensures var p := HexEnd(js, pos, n); p.Some? && More(js, p.value) ==>
      p.value == pos + n && forall j :: pos <= j < pos + n ==> HexDigit(js[j])
    decreases n
  {
    if n > 0 && More(js, pos) && Hex(js[pos]) {
      HexIs(js, pos + 1, n - 1);
    }
  }

  /** A string that goes on from `from` on, behind `first` at pos that is not a part of it. */
  lemma Prepend(js: string, pos: nat, from: nat, end: nat)
    requires pos < from && IsString(js, from, end)
    requires forall k :: from <= k <= end ==> Escaped(js, pos, k) == Escaped(js, from, k)
    requires forall k :: pos <= k < from && js[k] == '\"' ==> Escaped(js, pos, k)
    requires forall k :: pos <= k < from && js[k] == '\\' && !Escaped(js, pos, k) ==> Escape(js, k, end)
    requires forall k :: pos <= k < from ==> js[k] != '\0'
    ensures IsString(js, pos, end)
  {
    hide Escaped, Escape;
  }

  lemma NotEscaped(js: string, pos: nat, from: nat, end: nat)
    requires pos < from <= end <= |js| && js[from - 1] != '\\'
    ensures forall k :: from <= k <= end ==> Escaped(js, pos, k) == Escaped(js, from, k)
  {
    forall k | from <= k <= end ensures Escaped(js, pos, k) == Escaped(js, from, k) {
      BackslashesBehind(js, pos, from, k);
    }
  }

  lemma {:induction false} StringIs(js: string, pos: nat)
    ensures var q := StringEnd(js, pos); q.At? ==> IsString(js, pos, q.end)
    decreases |js| - pos
  {
    hide Escaped, IsString, Escape;
    var q := StringEnd(js, pos);
    if !q.At? {
    } else if js[pos] == '\"' {
      Closing(js, pos);
    } else if js[pos] == '\\' && pos + 1 < |js| {
      if js[pos + 1] == 'u' {
        var p := HexEnd(js, pos + 2, 4).value;
        StringIs(js, p);
        HexIs(js, pos + 2, 4);
        UnicodeFirst(js, pos, q.end);
      } else {
        StringIs(js, pos + 2);
        EscapeFirst(js, pos, q.end);
      }
    } else {
      StringIs(js, pos + 1);
      PlainFirst(js, pos, q.end);
    }
  }

  lemma Closing(js: string, pos: nat)
    requires pos < |js| && js[pos] == '\"'
    ensures IsString(js, pos, pos)
  {
  }

  lemma PlainFirst(js: string, pos: nat, end: nat)
    requires IsString(js, pos + 1, end) && js[pos] != '\"' && js[pos] != '\\' && js[pos] != '\0'
    ensures IsString(js, pos, end)
  {
    hide Escaped, Escape;
    NotEscaped(js, pos, pos + 1, end);
    Prepend(js, pos, pos + 1, end);
  }

  lemma EscapeFirst(js: string, pos: nat, end: nat)
    requires IsString(js, pos + 2, end) && js[pos] == '\\' && js[pos + 1] in "\"/\\bfrnt"
    ensures IsString(js, pos, end)
  {
    assert !Escaped(js, pos, pos) && Escaped(js, pos, pos + 1) && Escape(js, pos, end);
    hide Escape;
    if js[pos + 1] == '\\' {
      forall k | pos + 2 <= k <= end ensures Escaped(js, pos, k) == Escaped(js, pos + 2, k) {
        EscapedBehind(js, pos, k);
      }
    } else {
      NotEscaped(js, pos, pos + 2, end);
    }
    hide Escaped;
    Prepend(js, pos, pos + 2, end);
  }

  lemma UnicodeFirst(js: string, pos: nat, end: nat)
    requires IsString(js, pos + 6, end) && js[pos] == '\\' && js[pos + 1] == 'u'
    requires forall j :: pos + 2 <= j < pos + 6 ==> HexDigit(js[j])
    ensures IsString(js, pos, end)
  {
    assert Escape(js, pos, end);
    hide Escape, Escaped;
    NotEscaped(js, pos, pos + 6, end);
    Prepend(js, pos, pos + 6, end);
  }

  /** There is only one end of a string, and it is found. */
  lemma {:induction false} StringEndsThere(js: string, pos: nat, end: nat)
    requires IsString(js, pos, end)
    ensures StringEnd(js, pos) == At(end)
    decreases end - pos
  {
    hide Escaped, IsString, Escape;
    FirstOf(js, pos, end);
    if pos == end {
    } else if js[pos] != '\\' {
      NotEscaped(js, pos, pos + 1, end);
      Behind(js, pos, pos + 1, end);
      StringEndsThere(js, pos + 1, end);
    } else if js[pos + 1] == 'u' {
      HexEndsThere(js, pos + 2, 4);
      NotEscaped(js, pos, pos + 6, end);
      Behind(js, pos, pos + 6, end);
      StringEndsThere(js, pos + 6, end);
    } else {
      if js[pos + 1] == '\\' {
        forall k | pos + 2 <= k <= end ensures Escaped(js, pos, k) == Escaped(js, pos + 2, k) {
          EscapedBehind(js, pos, k);
        }
      } else {
        NotEscaped(js, pos, pos + 2, end);
      }
      Behind(js, pos, pos + 2, end);
      StringEndsThere(js, pos + 2, end);
    }
  }

  /** What is at the beginning of a string. */
  lemma FirstOf(js: string, pos: nat, end: nat)
    requires IsString(js, pos, end)
    ensures pos <= end < |js| && js[end] == '\"' && js[pos] != '\0'
    ensures pos < end ==> js[pos] != '\"'
    ensures pos < end && js[pos] == '\\' ==> pos + 2 <= end && js[pos + 1] in "\"/\\bfrntu"
    ensures pos < end && js[pos] == '\\' && js[pos + 1] == 'u' ==>
      pos + 6 <= end && forall j :: pos + 2 <= j < pos + 6 ==> HexDigit(js[j])
  {
    assert !Escaped(js, pos, pos);
    if pos < end && js[pos] == '\\' { assert Escape(js, pos, end); }
  }

  lemma {:induction false} HexEndsThere(js: string, pos: nat, n: nat)
    requires pos + n <= |js| && forall j :: pos <= j < pos + n ==> HexDigit(js[j])
    ensures HexEnd(js, pos, n) == Some(pos + n)
    decreases n
  {
    if n > 0 {
      assert HexDigit(js[pos]);
      HexEndsThere(js, pos + 1, n - 1);
    }
  }

  /** The rest of a string is a string, where escaping is the same without what was before. */
  lemma Behind(js: string, pos: nat, from: nat, end: nat)
    requires IsString(js, pos, end) && pos < from <= end
    requires forall k :: from <= k <= end ==> Escaped(js, pos, k) == Escaped(js, from, k)
    ensures IsString(js, from, end)
  {
    hide Escaped, Escape;
  }

  // ---------------------------------------------------------------- tokens

  /** The text of a token is what its type says. */
  ghost predicate Reads(js: string, t: Token) {
    match t.typ
    case PRIMITIVE => t.start < t.end && IsPrimitive(js, t.start, t.end) && js[t.start] !in "{[\""
    case STRING => 1 <= t.start <= t.end && t.start <= |js| && js[t.start - 1] == '\"' && IsString(js, t.start, t.end)
    case OBJECT =>
      0 <= t.start < |js| && js[t.start] == '{' && (t.end != -1 ==> 0 < t.end <= |js| && js[t.end - 1] == '}')
    case ARRAY =>
      0 <= t.start < |js| && js[t.start] == '[' && (t.end != -1 ==> 0 < t.end <= |js| && js[t.end - 1] == ']')
  }

  ghost predicate AllRead(js: string, toks: seq<Token>) { forall i :: 0 <= i < |toks| ==> Reads(js, toks[i]) }

  /** k belongs to a string, with its quotes, or to a primitive. */
  predicate Inside(t: Token, k: nat) {
    (t.typ.STRING? && t.start - 1 <= k <= t.end) || (t.typ.PRIMITIVE? && t.start <= k < t.end)
  }

  /** All characters before pos are brackets, separators or space, or belong to a string or a primitive. */
  ghost predicate Covered(js: string, toks: seq<Token>, pos: nat) {
    && pos <= |js|
    && forall k :: 0 <= k < pos ==>
      js[k] in "{}[]:,\t\r\n " || exists i :: 0 <= i < |toks| && Inside(toks[i], k)
  }

  /** Tokens that are inside wherever others were cover as much, and more if the rest is brackets or in the last. */
  lemma CoveredMore(js: string, toks: seq<Token>, more: seq<Token>, pos: nat, end: nat)
    requires Covered(js, toks, pos) && pos <= end <= |js| && |toks| <= |more|
    requires forall i, k: nat :: 0 <= i < |toks| && Inside(toks[i], k) ==> Inside(more[i], k)
    requires forall k :: pos <= k < end ==> js[k] in "{[]}" || (|more| > 0 && Inside(more[|more| - 1], k))
    ensures Covered(js, more, end)
  {
    forall k: nat | k < end
      ensures js[k] in "{}[]:,\t\r\n " || exists i :: 0 <= i < |more| && Inside(more[i], k)
    {
      if k < pos && js[k] !in "{}[]:,\t\r\n " {
        var i :| 0 <= i < |toks| && Inside(toks[i], k);
        assert Inside(more[i], k);
      }
    }
  }

  lemma AddReads(js: string, p: Parser, t: Token, pos: nat, super: int, room: nat)
    requires Sane(p) && AllRead(js, p.toks) && Covered(js, p.toks, p.pos) && Reads(js, t) && p.pos <= pos <= |js|
    requires forall k :: p.pos <= k < pos ==> js[k] in "{[" || Inside(t, k)
    ensures var r := Add(p, t, pos, super, room); r.Next? ==> AllRead(js, r.p.toks) && Covered(js, r.p.toks, r.p.pos)
  {
    hide IsPrimitive, IsString, Covered;
    var r := Add(p, t, pos, super, room);
    if r.Next? {
      var n, toks := |p.toks|, r.p.toks;
      assert toks[n] == t;
      assert AllRead(js, toks) by {
        forall i | 0 <= i < |toks| ensures Reads(js, toks[i]) { assert i < n ==> Reads(js, p.toks[i]); }
      }
      hide Reads, AllRead;
      CoveredMore(js, p.toks, toks, p.pos, pos);
    }
  }

  lemma CloseReads(js: string, p: Parser, typ: Type)
    requires Sane(p) && AllRead(js, p.toks) && Covered(js, p.toks, p.pos) && More(js, p.pos)
    requires (typ.OBJECT? && js[p.pos] == '}') || (typ.ARRAY? && js[p.pos] == ']')
    ensures var r := Close(p, typ); r.Next? ==> AllRead(js, r.p.toks) && Covered(js, r.p.toks, r.p.pos)
  {
    hide IsPrimitive, IsString, Covered;
    var r := Close(p, typ);
    if r.Next? {
      var toks := r.p.toks;
      assert AllRead(js, toks) by {
        forall i | 0 <= i < |toks| ensures Reads(js, toks[i]) { assert Reads(js, p.toks[i]); }
      }
      hide Reads, AllRead;
      CoveredMore(js, p.toks, toks, p.pos, p.pos + 1);
    }
  }

  lemma SkipReads(js: string, toks: seq<Token>, pos: nat)
    requires Covered(js, toks, pos) && More(js, pos) && js[pos] in "\t\r\n :,"
    ensures Covered(js, toks, pos + 1)
  {
  }

  lemma StepReads(js: string, p: Parser, room: nat)
    requires Sane(p) && AllRead(js, p.toks) && Covered(js, p.toks, p.pos) && More(js, p.pos)
    ensures var r := Step(js, p, room); r.Next? ==> AllRead(js, r.p.toks) && Covered(js, r.p.toks, r.p.pos)
  {
    hide StringEnd, PrimitiveEnd, LastOpen, Comma, Add, Close, IsPrimitive, IsString, Covered, AllRead;
    var c := js[p.pos];
    if c == '{' || c == '[' {
      AddReads(js, p, Token(if c == '{' then OBJECT else ARRAY, p.pos, -1, 0), p.pos + 1, |p.toks|, room);
    } else if c == '}' || c == ']' {
      CloseReads(js, p, if c == '}' then OBJECT else ARRAY);
    } else if c == '\"' {
      var q := StringEnd(js, p.pos + 1);
      if q.At? {
        StringIs(js, p.pos + 1);
        AddReads(js, p, Token(STRING, p.pos + 1, q.end, 0), q.end + 1, p.super, room);
      }
    } else if c in "\t\r\n :," {
      SkipReads(js, p.toks, p.pos);
    } else {
      var e := PrimitiveEnd(js, p.pos);
      if e.Some? {
        PrimitiveIs(js, p.pos);
        NotDelimiter(c);
        AddReads(js, p, Token(PRIMITIVE, p.pos, e.value, 0), e.value, p.super, room);
      }
    }
  }

  lemma NotDelimiter(c: char)
    requires c !in "}]\t\r\n :,"
    ensures !Delimiter(c)
  {
  }

  /**
    After a run the text of every token is what its type says, and nothing but brackets, separators
    and space is left out.
   */
  lemma {:induction false} RunReads(js: string, p: Parser, room: nat)
    requires Sane(p) && AllRead(js, p.toks) && Covered(js, p.toks, p.pos)
    ensures var r := Run(js, p, room); var q := if r.Done? then r.p else r.at;
      AllRead(js, q.toks) && Covered(js, q.toks, q.pos) && (r.Done? ==> q.pos == |js| || js[q.pos] == '\0')
    decreases |js| - p.pos
  {
    hide Step, AllRead, Covered, LastOpen;
    CoveredInText(js, p.toks, p.pos);
    if More(js, p.pos) {
      StepReads(js, p, room);
      var s := Step(js, p, room);
      if s.Next? { RunReads(js, s.p, room); }
    }
  }

  lemma CoveredInText(js: string, toks: seq<Token>, pos: nat)
    requires Covered(js, toks, pos)
    ensures pos <= |js|
  {
  }

  // ---------------------------------------------------------------- an example

  const EXAMPLE := "{\"a\":12,\"b\":3}"

  /** State k of the run over it. */
  function Stage(k: nat): (p: Parser)
    requires k <= 9
    ensures Sane(p)
  {
    match k
    case 0 => Parser(0, [], -1, [])
    case 1 => Parser(1, [Token(OBJECT, 0, -1, 0)], 0, [-1])
    case 2 => Parser(4, [Token(OBJECT, 0, -1, 1), Token(STRING, 2, 3, 0)], 0, [-1, 0])
    case 3 => Parser(5, [Token(OBJECT, 0, -1, 1), Token(STRING, 2, 3, 0)], 1, [-1, 0])
    case 4 => Parser(7, [Token(OBJECT, 0, -1, 1), Token(STRING, 2, 3, 1), Token(PRIMITIVE, 5, 7, 0)],
             1, [-1, 0, 1])
    case 5 => Parser(8, [Token(OBJECT, 0, -1, 1), Token(STRING, 2, 3, 1), Token(PRIMITIVE, 5, 7, 0)],
             0, [-1, 0, 1])
    case 6 => Parser(11, [Token(OBJECT, 0, -1, 2), Token(STRING, 2, 3, 1), Token(PRIMITIVE, 5, 7, 0),
              Token(STRING, 9, 10, 0)],
             0, [-1, 0, 1, 0])
    case 7 => Parser(12, [Token(OBJECT, 0, -1, 2), Token(STRING, 2, 3, 1), Token(PRIMITIVE, 5, 7, 0),
              Token(STRING, 9, 10, 0)],
             3, [-1, 0, 1, 0])
    case 8 => Parser(13, [Token(OBJECT, 0, -1, 2), Token(STRING, 2, 3, 1), Token(PRIMITIVE, 5, 7, 0),
              Token(STRING, 9, 10, 1), Token(PRIMITIVE, 12, 13, 0)],
             3, [-1, 0, 1, 0, 3])
    case _ => Parser(14, [Token(OBJECT, 0, 14, 2), Token(STRING, 2, 3, 1), Token(PRIMITIVE, 5, 7, 0),
              Token(STRING, 9, 10, 1), Token(PRIMITIVE, 12, 13, 0)],
             -1, [-1, 0, 1, 0, 3])
  }

  lemma Stage0()
    ensures More(EXAMPLE, 0) && Stage(0).pos == 0 && Step(EXAMPLE, Stage(0), 5) == Next(Stage(1))
  {
  }

  lemma Stage1()
    ensures More(EXAMPLE, 1) && Stage(1).pos == 1 && Step(EXAMPLE, Stage(1), 5) == Next(Stage(2))
  {
    assert StringEnd(EXAMPLE, 2) == At(3);
  }

  lemma Stage2()
    ensures More(EXAMPLE, 4) && Stage(2).pos == 4 && Step(EXAMPLE, Stage(2), 5) == Next(Stage(3))
  {
  }

  lemma Stage3()
    ensures More(EXAMPLE, 5) && Stage(3).pos == 5 && Step(EXAMPLE, Stage(3), 5) == Next(Stage(4))
  {
    assert PrimitiveEnd(EXAMPLE, 7) == Some(7) && PrimitiveEnd(EXAMPLE, 6) == Some(7);
  }

  lemma Stage4()
    ensures More(EXAMPLE, 7) && Stage(4).pos == 7 && Step(EXAMPLE, Stage(4), 5) == Next(Stage(5))
  {
    var toks := Stage(4).toks;
    assert IsOpen(toks[0]) && forall i :: 0 < i < |toks| ==> !IsOpen(toks[i]);
  }

  lemma Stage5()
    ensures More(EXAMPLE, 8) && Stage(5).pos == 8 && Step(EXAMPLE, Stage(5), 5) == Next(Stage(6))
  {
    assert StringEnd(EXAMPLE, 9) == At(10);
  }

  lemma Stage6()
    ensures More(EXAMPLE, 11) && Stage(6).pos == 11 && Step(EXAMPLE, Stage(6), 5) == Next(Stage(7))
  {
  }

  lemma Stage7()
    ensures More(EXAMPLE, 12) && Stage(7).pos == 12 && Step(EXAMPLE, Stage(7), 5) == Next(Stage(8))
  {
    assert PrimitiveEnd(EXAMPLE, 13) == Some(13);
  }

  lemma Stage8()
    ensures More(EXAMPLE, 13) && Stage(8).pos == 13 && Step(EXAMPLE, Stage(8), 5) == Next(Stage(9))
  {
    var toks := Stage(8).toks;
    assert IsOpen(toks[0]) && forall i :: 0 < i < |toks| ==> !IsOpen(toks[i]);
    assert toks[..0] == [];
  }

  /** Two keys with a value each: five tokens, of which the object has two and each key one. */
  lemma Example()
    ensures Run(EXAMPLE, START, 5) == Done(5, Stage(9))
  {
    hide Step;
    Stage0(); Stage1(); Stage2(); Stage3(); Stage4(); Stage5(); Stage6(); Stage7(); Stage8();
    assert !More(EXAMPLE, 14) && LastOpen(Stage(9).toks) == -1;
    assert Run(EXAMPLE, Stage(9), 5) == Done(5, Stage(9));
    assert Run(EXAMPLE, Stage(8), 5) == Done(5, Stage(9));
    assert Run(EXAMPLE, Stage(7), 5) == Done(5, Stage(9));
    assert Run(EXAMPLE, Stage(6), 5) == Done(5, Stage(9));
    assert Run(EXAMPLE, Stage(5), 5) == Done(5, Stage(9));
    assert Run(EXAMPLE, Stage(4), 5) == Done(5, Stage(9));
    assert Run(EXAMPLE, Stage(3), 5) == Done(5, Stage(9));
    assert Run(EXAMPLE, Stage(2), 5) == Done(5, Stage(9));
    assert Run(EXAMPLE, Stage(1), 5) == Done(5, Stage(9));
  }

  const MIXED := "[{},\"x\"]"

  /** State k of the run over that. */
  function Mixed(k: nat): (p: Parser)
    requires k <= 6
    ensures Sane(p)
  {
    match k
    case 0 => Parser(0, [], -1, [])
    case 1 => Parser(1, [Token(ARRAY, 0, -1, 0)], 0, [-1])
    case 2 => Parser(2, [Token(ARRAY, 0, -1, 1), Token(OBJECT, 1, -1, 0)], 1, [-1, 0])
    case 3 => Parser(3, [Token(ARRAY, 0, -1, 1), Token(OBJECT, 1, 3, 0)], 0, [-1, 0])
    case 4 => Parser(4, [Token(ARRAY, 0, -1, 1), Token(OBJECT, 1, 3, 0)], 0, [-1, 0])
    case 5 => Parser(7, [Token(ARRAY, 0, -1, 2), Token(OBJECT, 1, 3, 0), Token(STRING, 5, 6, 0)], 0, [-1, 0, 0])
    case _ => Parser(8, [Token(ARRAY, 0, 8, 2), Token(OBJECT, 1, 3, 0), Token(STRING, 5, 6, 0)], -1, [-1, 0, 0])
  }

  lemma MixedOpening()
    ensures Step(MIXED, Mixed(0), 3) == Next(Mixed(1)) && Step(MIXED, Mixed(1), 3) == Next(Mixed(2))
  {
    hide StringEnd, PrimitiveEnd, LastOpen;
  }

  lemma MixedClosing()
    ensures Step(MIXED, Mixed(2), 3) == Next(Mixed(3))
  {
    hide StringEnd, PrimitiveEnd;
    assert Mixed(2).toks[..1] == Mixed(1).toks[..0] + [Token(ARRAY, 0, -1, 1)];
  }

  lemma MixedComma()
    ensures Step(MIXED, Mixed(3), 3) == Next(Mixed(4))
  {
    hide StringEnd, PrimitiveEnd, LastOpen;
  }

  lemma MixedString()
    ensures Step(MIXED, Mixed(4), 3) == Next(Mixed(5))
  {
    assert StringEnd(MIXED, 5) == At(6);
    hide StringEnd, PrimitiveEnd, LastOpen;
  }

  lemma MixedLast()
    ensures Step(MIXED, Mixed(5), 3) == Next(Mixed(6)) && LastOpen(Mixed(6).toks) == -1
  {
    var toks := Mixed(5).toks;
    assert IsOpen(toks[0]) && forall i :: 0 < i < |toks| ==> !IsOpen(toks[i]);
    assert toks[..0] == [];
  }

  /** An array with an object and a string in it; there is room for just these tokens. */
  lemma MixedExample()
    ensures Run(MIXED, START, 3) == Done(3, Mixed(6))
  {
    hide Step;
    MixedOpening();
    MixedClosing();
    MixedComma();
    MixedString();
    MixedLast();
    assert More(MIXED, 7) && !More(MIXED, 8);
    assert Run(MIXED, Mixed(6), 3) == Done(3, Mixed(6));
    assert Run(MIXED, Mixed(5), 3) == Done(3, Mixed(6));
    assert Step(MIXED, Mixed(4), 3) == Next(Mixed(5));
    assert Run(MIXED, Mixed(4), 3) == Done(3, Mixed(6));
    assert Step(MIXED, Mixed(3), 3) == Next(Mixed(4));
    assert Run(MIXED, Mixed(3), 3) == Done(3, Mixed(6));
    assert Step(MIXED, Mixed(2), 3) == Next(Mixed(3));
    assert Run(MIXED, Mixed(2), 3) == Done(3, Mixed(6));
    assert Step(MIXED, Mixed(1), 3) == Next(Mixed(2));
    assert Run(MIXED, Mixed(1), 3) == Done(3, Mixed(6));
    assert Step(MIXED, Mixed(0), 3) == Next(Mixed(1));
  }

  /** Outside of all containers a comma leaves the superior token: in `"a":1,2` the key has both values. */
  lemma CommaOutside()
    ensures Comma(Parser(5, [Token(STRING, 1, 2, 1), Token(PRIMITIVE, 4, 5, 0)], 0, [-1, 0])) == 0
  {
    var toks := [Token(STRING, 1, 2, 1), Token(PRIMITIVE, 4, 5, 0)];
    assert !IsOpen(toks[0]) && !IsOpen(toks[1]);
  }

  /** A bracket of the other kind, or none before; the text ends inside a container; no room. */
  lemma BracketErrors()
    ensures var r := Run("[}", START, 9); r.Stopped? && r.error == INVAL
    ensures var r := Run("]", START, 9); r.Stopped? && r.error == INVAL
    ensures var r := Run("[", START, 9); r.Stopped? && r.error == PART
    ensures var r := Run("[", START, 0); r.Stopped? && r.error == NOMEM
  {
    hide StringEnd, PrimitiveEnd;
    var open := Parser(1, [Token(ARRAY, 0, -1, 0)], 0, [-1]);
    assert Step("[}", START, 9) == Next(open) && Step("[", START, 9) == Next(open);
    assert Step("[}", open, 9) == Fail(INVAL, open);
  }

  /** A string that does not end, and one with an escape that there is not. */
  lemma StringErrors()
    ensures var r := Run("\"a", START, 9); r.Stopped? && r.error == PART
    ensures var r := Run("\"\\q\"", START, 9); r.Stopped? && r.error == INVAL
  {
    assert StringEnd("\"a", 1) == Bad(PART);
    assert StringEnd("\"\\q\"", 1) == Bad(INVAL);
    hide StringEnd, PrimitiveEnd, HexEnd, LastOpen;
    assert Step("\"a", START, 9) == Fail(PART, START);
    assert Step("\"\\q\"", START, 9) == Fail(INVAL, START);
  }
}
