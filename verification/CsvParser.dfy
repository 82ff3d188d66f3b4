/**
 * The string mode of the CSV parser: one row per call, and what it makes of a text printed by section 2 of RFC 4180.
 */
module CsvParser {
  datatype Option<+T> = None | Some(value: T)

  type Row = seq<string>

  /** The local variables of `_CsvParser_getRow`; the field buffer is kept without what lies beyond its iterator. */
  datatype State = State(fields: Row, field: string, inside: bool, quotes: nat, lastIsQuote: bool)

  /**
   * What one call returns and how far it reads; reading the end of the text counts as one character. In an underrun the
   * terminator of the last field is written in front of the field buffer.
   */
  datatype Parsed = Parsed(row: Option<Row>, used: nat) | Underrun

  function Start(fields: Row): State {
    State(fields, [], false, 0, false)
  }

  /** What holds of the variables between two characters. */
  predicate Sound(s: State) {
    (s.field == [] ==> s.quotes == 0) && (s.field == [] && s.lastIsQuote ==> s.inside)
  }

  function DropLast(s: string): string
    requires s != []
  {
    s[..|s| - 1]
  }

  /** Where the terminator of the field goes: on the closing quote, which is cut off. */
  function TerminatorIndex(s: State): int {
    |s.field| - if s.lastIsQuote then 1 else 0
  }

  /** The buffer up to the terminator. */
  function Finished(s: State): string
    requires 0 <= TerminatorIndex(s)
  {
    s.field[..TerminatorIndex(s)]
  }

  /** The quote that opens a field. */
  predicate Opens(s: State, c: char) {
    s.field == [] && !s.lastIsQuote && c == '"'
  }

  /**
   * The count of quotes in a row: an even count is inside a quoted field, and its last quote replaces the one before.
   */
  function Counted(s: State, c: char): State
    requires Sound(s)
  {
    if s.field == [] && !s.lastIsQuote then s
    else if c != '"' then s.(quotes := 0)
    else if (s.quotes + 1) % 2 == 0 then s.(quotes := s.quotes + 1, inside := true, field := DropLast(s.field))
    else s.(quotes := s.quotes + 1, inside := false)
  }

  predicate Ends(delimiter: char, s: State, c: char) {
    (c == delimiter || c == '\n') && !s.inside
  }

  predicate Accepted(delimiter: char) {
    delimiter != '\n' && delimiter != '\r' && delimiter != '\0' && delimiter != '"'
  }

  /** One character of the text, unless it ends the row. */
  function Step(delimiter: char, s: State, c: char): (next: Option<State>)
    requires Accepted(delimiter) && Sound(s)
    ensures match next case Some(t) => Sound(t) case None => 0 <= TerminatorIndex(s)
  {
    if c == '\r' then Some(s)
    else if Opens(s, c) then Some(s.(inside := true, lastIsQuote := true))
    else
      var t := Counted(s, c);
      if !Ends(delimiter, t, c) then Some(t.(field := t.field + [c], lastIsQuote := c == '"'))
      else if c == '\n' then None
      else Some(t.(fields := t.fields + [Finished(t)], field := [], inside := false, lastIsQuote := false))
  }

  function Add(n: nat, p: Parsed): Parsed {
    if p == Underrun then Underrun else p.(used := p.used + n)
  }

  /** The run of the loop over the rest of the text. */
  function Parse(delimiter: char, s: State, text: string): (p: Parsed)
    requires Accepted(delimiter) && Sound(s)
    ensures p.Parsed? ==> 1 <= p.used <= |text| + 1
    decreases |text|
  {
    if text == [] then
      if s.field == [] && s.fields == [] then Parsed(None, 1)
      else if TerminatorIndex(s) < 0 then Underrun
      else Parsed(Some(s.fields + [Finished(s)]), 1)
    else
      match Step(delimiter, s, text[0])
      case None => Parsed(Some(s.fields + [Finished(s)]), 1)
      case Some(t) => Add(1, Parse(delimiter, t, text[1..]))
  }

  /** The loop has come from position start to position i with these variables. */
  ghost predicate Reached(delimiter: char, text: string, start: nat, i: nat, s: State)
    requires Accepted(delimiter)
  {
    && start <= i <= |text| && Sound(s)
    && Parse(delimiter, Start([]), text[start..]) == Add(i - start, Parse(delimiter, s, text[i..]))
  }

  lemma ReachedStart(delimiter: char, text: string, start: nat)
    requires Accepted(delimiter) && start <= |text|
    ensures Reached(delimiter, text, start, start, Start([]))
  {
  }

  lemma NextReached(delimiter: char, text: string, start: nat, i: nat, s: State)
    requires Accepted(delimiter) && Reached(delimiter, text, start, i, s)
    ensures i < |text| ==> match Step(delimiter, s, text[i])
      case Some(t) => Reached(delimiter, text, start, i + 1, t)
      case None => Parse(delimiter, Start([]), text[start..]) == Parsed(Some(s.fields + [Finished(s)]), i + 1 - start)
    ensures i == |text| && s.field == [] && s.fields == [] ==>
      Parse(delimiter, Start([]), text[start..]) == Parsed(None, i + 1 - start)
    ensures i == |text| && !(s.field == [] && s.fields == []) ==> (
      Parse(delimiter, Start([]), text[start..])
      == if TerminatorIndex(s) < 0 then Underrun else Parsed(Some(s.fields + [Finished(s)]), i + 1 - start))
  {
    if i < |text| { assert text[i..][1..] == text[i + 1..]; }
  }

  // ------------------------------------------------------------------ where the terminator underruns the buffer

  /** The variables after the whole text, unless a row has ended before. */
  function Run(delimiter: char, text: string): (last: Option<State>)
    requires Accepted(delimiter)
    ensures last.Some? ==> Sound(last.value)
  {
    if text == [] then Some(Start([]))
    else
      match Run(delimiter, text[..|text| - 1])
      case None => None
      case Some(s) => Step(delimiter, s, text[|text| - 1])
  }

  /** A field that is not the row's first begins behind the text. */
  predicate LaterFieldBegins(delimiter: char, text: string)
    requires Accepted(delimiter)
  {
    match Run(delimiter, text)
    case None => false
    case Some(s) => s.fields != [] && s.field == [] && !s.lastIsQuote
  }

  /** The text ends, but for carriage returns, right behind the quote that opens a later field. */
  predicate EndsAtOpeningQuote(delimiter: char, text: string)
    requires Accepted(delimiter)
  {
    && text != []
    && var rest, c := text[..|text| - 1], text[|text| - 1];
       if c == '\r' then EndsAtOpeningQuote(delimiter, rest) else c == '"' && LaterFieldBegins(delimiter, rest)
  }

  lemma {:induction false} RunParse(delimiter: char, text: string, rest: string)
    requires Accepted(delimiter)
    ensures match Run(delimiter, text)
      case Some(s) => Parse(delimiter, Start([]), text + rest) == Add(|text|, Parse(delimiter, s, rest))
      case None => Parse(delimiter, Start([]), text + rest).Parsed?
    decreases |text|
  {
    if text == [] {
      assert text + rest == rest;
    } else {
      var u, c := text[..|text| - 1], text[|text| - 1];
      RunParse(delimiter, u, [c] + rest);
      assert u + ([c] + rest) == text + rest && ([c] + rest)[1..] == rest;
    }
  }

  /** That is where the terminator's index is negative in a row that is not empty. */
  lemma {:induction false} OpeningQuoteLast(delimiter: char, text: string)
    requires Accepted(delimiter)
    ensures EndsAtOpeningQuote(delimiter, text) <==>
      match Run(delimiter, text) case None => false case Some(s) => s.fields != [] && TerminatorIndex(s) < 0
    decreases |text|
  {
    if text != [] {
      OpeningQuoteLast(delimiter, text[..|text| - 1]);
    }
  }

  /**
   * The parser writes in front of its buffer on exactly the texts that end right behind the quote opening a later
   * field.
   */
  lemma UnderrunExactly(delimiter: char, text: string)
    requires Accepted(delimiter)
    ensures Parse(delimiter, Start([]), text) == Underrun <==> EndsAtOpeningQuote(delimiter, text)
  {
    RunParse(delimiter, text, []);
    OpeningQuoteLast(delimiter, text);
    assert text + [] == text;
  }

  /** A concrete text: a, the delimiter, and an opening quote. */
  lemma UnderrunInput()
    ensures EndsAtOpeningQuote(',', "a,\"") && Parse(',', Start([]), "a,\"") == Underrun
    ensures Run(',', "a,\"") == Some(State(["a"], [], true, 0, true))
    ensures TerminatorIndex(State(["a"], [], true, 0, true)) == -1
  {
    var text := "a,\"";
    assert text[..2] == "a," && text[..2][..1] == "a" && "a"[..0] == [];
    assert [] + ['a'] == "a" && Step(',', Start([]), 'a') == Some(State([], "a", false, 0, false));
    assert Run(',', "a") == Some(State([], "a", false, 0, false));
    assert Finished(State([], "a", false, 0, false)) == "a";
    assert Step(',', State([], "a", false, 0, false), ',') == Some(Start([] + ["a"]));
    assert [] + ["a"] == ["a"] && Run(',', "a,") == Some(Start(["a"]));
    UnderrunExactly(',', text);
  }

  // ------------------------------------------------------------------ where the first row takes the terminator along

  /** A newline outside quotes at position k ends the row that begins with the text. */
  predicate RowEnds(delimiter: char, text: string, k: nat)
    requires Accepted(delimiter)
  {
    k < |text| && text[k] == '\n' && match Run(delimiter, text[..k]) case None => false case Some(s) => !s.inside
  }

  /** The first row takes the terminator along: a second row would be read from behind the string. */
  predicate TakesTerminator(delimiter: char, text: string)
    requires Accepted(delimiter)
  {
    var p := Parse(delimiter, Start([]), text);
    p.Parsed? && p.used == |text| + 1
  }

  lemma EndedRow(delimiter: char, text: string, k: nat)
    requires Accepted(delimiter) && RowEnds(delimiter, text, k)
    ensures var p := Parse(delimiter, Start([]), text); p.Parsed? && p.used == k + 1
  {
    RunParse(delimiter, text[..k], text[k..]);
    assert text[..k] + text[k..] == text;
  }

  lemma {:induction false} StoppedRun(delimiter: char, text: string)
    requires Accepted(delimiter) && Run(delimiter, text) == None
    ensures exists k :: RowEnds(delimiter, text, k)
    decreases |text|
  {
    var u := text[..|text| - 1];
    if Run(delimiter, u) == None {
      StoppedRun(delimiter, u);
      var k: nat :| RowEnds(delimiter, u, k);
      assert u[..k] == text[..k] && RowEnds(delimiter, text, k);
    } else {
      assert RowEnds(delimiter, text, |u|);
    }
  }

  /** That is so exactly when no newline ends a row in the text, those texts apart on which the buffer is underrun. */
  lemma TakesTerminatorExactly(delimiter: char, text: string)
    requires Accepted(delimiter)
    ensures TakesTerminator(delimiter, text)
      <==> !EndsAtOpeningQuote(delimiter, text) && forall k :: !RowEnds(delimiter, text, k)
  {
    forall k | RowEnds(delimiter, text, k) ensures !TakesTerminator(delimiter, text) {
      EndedRow(delimiter, text, k);
    }
    UnderrunExactly(delimiter, text);
    if Run(delimiter, text) == None {
      StoppedRun(delimiter, text);
    } else {
      RunParse(delimiter, text, []);
      assert text + [] == text;
    }
  }

  /** Concrete texts: nothing at all, and a header row that the string ends. */
  lemma HeaderAlone()
    ensures Parse(',', Start([]), "") == Parsed(None, 1) && TakesTerminator(',', "")
    ensures Parse(',', Start([]), "a") == Parsed(Some(["a"]), 2) && TakesTerminator(',', "a")
  {
    assert Step(',', Start([]), 'a') == Some(State([], [] + ['a'], false, 0, false)) && "a"[1..] == "";
    assert [] + ['a'] == "a" && Finished(State([], "a", false, 0, false)) == "a" && [] + ["a"] == ["a"];
  }

  // ------------------------------------------------------------------ carriage returns

  function WithoutReturns(text: string): (r: string)
    ensures |r| <= |text| && '\r' !in r && ('\r' !in text ==> r == text)
  {
    if text == [] then [] else (if text[0] == '\r' then [] else [text[0]]) + WithoutReturns(text[1..])
  }

  /** The parser's next character. */
  lemma ParseCons(delimiter: char, s: State, c: char, t: string)
    requires Accepted(delimiter) && Sound(s)
    ensures Parse(delimiter, s, [c] + t) == match Step(delimiter, s, c)
      case None => Parsed(Some(s.fields + [Finished(s)]), 1)
      case Some(next) => Add(1, Parse(delimiter, next, t))
    ensures c == '\r' ==> Step(delimiter, s, c) == Some(s)
  {
    assert ([c] + t)[1..] == t;
  }

  lemma ReturnsCons(c: char, t: string)
    ensures WithoutReturns([c] + t) == (if c == '\r' then [] else [c]) + WithoutReturns(t)
  {
    assert ([c] + t)[1..] == t;
  }

  /** The outcome p on a text is the outcome q on the text without its carriage returns. */
  ghost predicate SameWithout(text: string, p: Parsed, q: Parsed) {
    if p == Underrun then q == Underrun
    else q == Parsed(p.row, if p.used <= |text| then |WithoutReturns(text[..p.used])| else |WithoutReturns(text)| + 1)
  }

  lemma SameBehind(c: char, rest: string, p: Parsed, q: Parsed)
    requires SameWithout(rest, p, q)
    ensures SameWithout([c] + rest, Add(1, p), Add(if c == '\r' then 0 else 1, q))
  {
    hide WithoutReturns;
    ReturnsCons(c, rest);
    if p.Parsed? && p.used <= |rest| {
      assert ([c] + rest)[..p.used + 1] == [c] + rest[..p.used];
      ReturnsCons(c, rest[..p.used]);
    }
  }

  lemma Nothing(text: string, p: Parsed)
    ensures [] + text == text && Add(0, p) == p
  {
  }

  lemma OneChar(c: char, rest: string, row: Row)
    requires c != '\r'
    ensures SameWithout([c] + rest, Parsed(Some(row), 1), Parsed(Some(row), 1))
  {
    assert ([c] + rest)[..1] == [c] + [];
    ReturnsCons(c, []);
  }

  /**
   * Wherever they stand, carriage returns are passed over: the outcome and the row are those of the text without them,
   * and what has been read of that text is what has been read of this one, without them.
   */
  lemma {:induction false} ReturnsPassed(delimiter: char, s: State, text: string)
    requires Accepted(delimiter) && Sound(s)
    ensures SameWithout(text, Parse(delimiter, s, text), Parse(delimiter, s, WithoutReturns(text)))
    decreases |text|
  {
    if text == [] {
    } else {
      hide *;
      var c, rest := text[0], text[1..];
      assert text == [c] + rest;
      ReturnsCons(c, rest);
      ParseCons(delimiter, s, c, rest);
      ParseCons(delimiter, s, c, WithoutReturns(rest));
      var t := Step(delimiter, s, c);
      if t.Some? {
        ReturnsPassed(delimiter, t.value, rest);
        SameBehind(c, rest, Parse(delimiter, t.value, rest), Parse(delimiter, t.value, WithoutReturns(rest)));
        if c == '\r' { Nothing(WithoutReturns(rest), Parse(delimiter, s, WithoutReturns(rest))); }
      } else {
        OneChar(c, rest, s.fields + [Finished(s)]);
      }
    }
  }

  lemma Joined(a: string, b: string, c: string)
    ensures a + (b + c) == a + b + c
  {
  }

  lemma ReturnsHead(c: char, t: string, b: string)
    requires WithoutReturns(t + b) == WithoutReturns(t) + WithoutReturns(b)
    ensures WithoutReturns([c] + (t + b)) == WithoutReturns([c] + t) + WithoutReturns(b)
  {
    hide WithoutReturns;
    ReturnsCons(c, t);
    ReturnsCons(c, t + b);
    Joined([c], WithoutReturns(t), WithoutReturns(b));
  }

  lemma HeadAndTail(a: string, b: string)
    requires a != []
    ensures a == [a[0]] + a[1..] && a + b == [a[0]] + (a[1..] + b)
  {
  }

  lemma {:induction false} ReturnsAppend(a: string, b: string)
    ensures WithoutReturns(a + b) == WithoutReturns(a) + WithoutReturns(b)
  {
    if a == [] {
      assert a + b == b;
    } else {
      hide *;
      var c, t := a[0], a[1..];
      ReturnsAppend(t, b);
      HeadAndTail(a, b);
      ReturnsHead(c, t, b);
    }
  }

  /** A concrete text: a line that ends the DOS way. */
  lemma DosLine()
    ensures Parse(',', Start([]), "a\r\n") == Parsed(Some(["a"]), 3)
  {
    assert Step(',', Start([]), 'a') == Some(State([], [] + ['a'], false, 0, false)) && [] + ['a'] == "a";
    assert "a\r\n"[1..] == "\r\n" && "\r\n"[1..] == "\n" && Finished(State([], "a", false, 0, false)) == "a";
    assert [] + ["a"] == ["a"];
  }

  // ------------------------------------------------------------------ the text of a field

  /** How many quotes stand at the end of b. */
  function LastRun(b: string): nat {
    if b == [] || b[|b| - 1] != '"' then 0 else 1 + LastRun(b[..|b| - 1])
  }

  /** A field without the quote that opens it. */
  function Body(f: string): string {
    if f != [] && f[0] == '"' then f[1..] else f
  }

  /** Whether a field that has come to f is inside quotes: after its opening quote, and after an even run of others. */
  predicate Inside(f: string) {
    f != [] && if f[|f| - 1] == '"' then |f| == 1 || LastRun(Body(f)) % 2 == 0 else Inside(f[..|f| - 1])
  }

  /** Of each run of quotes every second one is dropped. */
  function Halved(b: string): (h: string)
    ensures b != [] ==> h != [] && h[|h| - 1] == b[|b| - 1]
    ensures |h| <= |b|
  {
    if b == [] then []
    else
      var u, c := b[..|b| - 1], b[|b| - 1];
      if c == '"' && LastRun(u) % 2 == 1 then Halved(u) else Halved(u) + [c]
  }

  /** What a field with the text f contains: a quote at its end is not part of it. */
  function FieldText(f: string): string {
    var h := Halved(Body(f));
    if h != [] && h[|h| - 1] == '"' then DropLast(h) else h
  }

  /** Delimiters and newlines in the text of a field stand inside quotes, and there are no carriage returns. */
  predicate OneField(delimiter: char, f: string) {
    && '\r' !in f
    && forall i :: 0 <= i < |f| && (f[i] == delimiter || f[i] == '\n') ==> Inside(f[..i])
  }

  /** The variables after the text f of a field. */
  function After(fields: Row, f: string): State {
    State(fields, Halved(Body(f)), Inside(f), LastRun(Body(f)), f != [] && f[|f| - 1] == '"')
  }

  lemma BodySnoc(f: string, c: char)
    requires f != []
    ensures var b := Body(f);
      && Body(f + [c]) == b + [c] && LastRun(b + [c]) == (if c == '"' then LastRun(b) + 1 else 0)
      && (c != '"' ==> Halved(b + [c]) == Halved(b) + [c])
      && Inside(f + [c]) == (if c == '"' then LastRun(b + [c]) % 2 == 0 else Inside(f))
  {
    var b := Body(f);
    assert (f + [c])[..|f|] == f;
    assert (f + [c])[1..] == f[1..] + [c];
    assert (b + [c])[..|b|] == b;
  }

  lemma FirstChar(delimiter: char, fields: Row, c: char)
    requires Accepted(delimiter) && c != '\r' && (c == delimiter || c == '\n' ==> Inside([]))
    ensures Step(delimiter, After(fields, []), c) == Some(After(fields, [c]))
  {
    assert [c][..0] == [] && [c][1..] == [] && [] + [c] == [c];
  }

  lemma FieldSound(fields: Row, f: string)
    ensures Sound(After(fields, f))
    ensures f != [] ==> Halved(Body(f)) != [] || f[|f| - 1] == '"'
  {
  }

  lemma QuoteNext(delimiter: char, s: State)
    requires Accepted(delimiter) && Sound(s) && (s.field != [] || s.lastIsQuote)
    ensures var q := s.quotes + 1;
      Step(delimiter, s, '"')
        == Some(State(s.fields, (if q % 2 == 0 then DropLast(s.field) else s.field) + ['"'], q % 2 == 0, q, true))
  {
  }

  lemma CharNext(delimiter: char, s: State, c: char)
    requires Accepted(delimiter) && Sound(s) && (s.field != [] || s.lastIsQuote) && c != '"' && c != '\r'
    requires c == delimiter || c == '\n' ==> s.inside
    ensures Step(delimiter, s, c) == Some(State(s.fields, s.field + [c], s.inside, 0, false))
  {
  }

  lemma AfterParts(fields: Row, f: string)
    requires f != []
    ensures After(fields, f) == State(fields, Halved(Body(f)), Inside(f), LastRun(Body(f)), f[|f| - 1] == '"')
  {
  }

  /** One more quote: an even run keeps what the odd one before it left. */
  lemma HalvedQuote(b: string)
    ensures LastRun(b) % 2 == 1 ==> Halved(b) != []
    ensures Halved(b + ['"']) == (if LastRun(b) % 2 == 1 then DropLast(Halved(b)) else Halved(b)) + ['"']
  {
    assert (b + ['"'])[..|b|] == b;
  }

  lemma FieldQuote(delimiter: char, fields: Row, f: string)
    requires Accepted(delimiter) && f != []
    ensures Sound(After(fields, f)) && Step(delimiter, After(fields, f), '"') == Some(After(fields, f + ['"']))
  {
    hide *;
    FieldSound(fields, f);
    AfterParts(fields, f);
    AfterParts(fields, f + ['"']);
    BodySnoc(f, '"');
    HalvedQuote(Body(f));
    QuoteNext(delimiter, After(fields, f));
  }

  lemma FieldChar(delimiter: char, fields: Row, f: string, c: char)
    requires Accepted(delimiter) && f != [] && c != '\r' && c != '"' && (c == delimiter || c == '\n' ==> Inside(f))
    ensures Sound(After(fields, f)) && Step(delimiter, After(fields, f), c) == Some(After(fields, f + [c]))
  {
    hide *;
    FieldSound(fields, f);
    AfterParts(fields, f);
    AfterParts(fields, f + [c]);
    BodySnoc(f, c);
    CharNext(delimiter, After(fields, f), c);
  }

  lemma FieldStep(delimiter: char, fields: Row, f: string, c: char)
    requires Accepted(delimiter) && c != '\r' && (c == delimiter || c == '\n' ==> Inside(f))
    ensures Sound(After(fields, f)) && Step(delimiter, After(fields, f), c) == Some(After(fields, f + [c]))
  {
    hide *;
    if f == [] {
      FieldSound(fields, f);
      FirstChar(delimiter, fields, c);
      assert f + [c] == [c];
    } else if c == '"' {
      FieldQuote(delimiter, fields, f);
    } else {
      FieldChar(delimiter, fields, f, c);
    }
  }

  lemma LastCharOff(delimiter: char, f: string, rest: string)
    requires OneField(delimiter, f) && f != []
    ensures var u, c := f[..|f| - 1], f[|f| - 1];
      && OneField(delimiter, u) && c != '\r' && (c == delimiter || c == '\n' ==> Inside(u))
      && u + [c] == f && u + ([c] + rest) == f + rest
  {
    var u := f[..|f| - 1];
    assert forall i :: 0 <= i < |u| ==> u[i] == f[i] && u[..i] == f[..i];
  }

  lemma AddAdd(n: nat, p: Parsed)
    ensures Add(n, Add(1, p)) == Add(n + 1, p)
  {
  }

  lemma NoField(fields: Row)
    ensures After(fields, []) == Start(fields)
  {
  }

  lemma {:induction false} FieldRun(delimiter: char, fields: Row, f: string, rest: string)
    requires Accepted(delimiter) && OneField(delimiter, f)
    ensures Sound(After(fields, f))
    ensures Parse(delimiter, Start(fields), f + rest) == Add(|f|, Parse(delimiter, After(fields, f), rest))
    decreases |f|
  {
    hide *;
    FieldSound(fields, f);
    if f == [] {
      NoField(fields);
      Nothing(rest, Parse(delimiter, Start(fields), rest));
    } else {
      var u, c := f[..|f| - 1], f[|f| - 1];
      LastCharOff(delimiter, f, rest);
      FieldRun(delimiter, fields, u, [c] + rest);
      FieldStep(delimiter, fields, u, c);
      ParseCons(delimiter, After(fields, u), c, rest);
      AddAdd(|u|, Parse(delimiter, After(fields, f), rest));
    }
  }

  /** After a field has been read, at the character that ends it. */
  function AtEnd(delimiter: char, fields: Row, f: string, end: char, rest: string): Parsed
    requires Accepted(delimiter)
  {
    if end == '\n' then Parsed(Some(fields + [f]), 1) else Add(1, Parse(delimiter, Start(fields + [f]), rest))
  }

  /** The character that ends a field, outside quotes. */
  lemma EndChar(delimiter: char, s: State, end: char, rest: string)
    requires Accepted(delimiter) && (end == delimiter || end == '\n')
    requires Sound(s) && !s.inside && 0 <= TerminatorIndex(s)
    ensures Parse(delimiter, s, [end] + rest) == AtEnd(delimiter, s.fields, Finished(s), end, rest)
  {
    assert ([end] + rest)[1..] == rest;
  }

  /** Where the last character is a quote, it is the one that is cut off. */
  lemma FieldEnd(fields: Row, f: string)
    ensures var s := After(fields, f);
      && s.fields == fields && (TerminatorIndex(s) < 0 <==> f == ['"']) && (s.field == [] <==> f == [] || f == ['"'])
      && (f != ['"'] ==> Finished(s) == FieldText(f))
  {
  }

  /** What any field becomes that a delimiter or a newline outside quotes ends. */
  lemma AnyField(delimiter: char, fields: Row, f: string, end: char, rest: string)
    requires Accepted(delimiter) && OneField(delimiter, f) && !Inside(f) && (end == delimiter || end == '\n')
    ensures Parse(delimiter, Start(fields), f + [end] + rest)
      == Add(|f|, AtEnd(delimiter, fields, FieldText(f), end, rest))
  {
    hide Parse, Step, LastRun, Halved, Body, FieldText, AtEnd, Sound, OneField;
    FieldRun(delimiter, fields, f, [end] + rest);
    Joined(f, [end], rest);
    FieldEnd(fields, f);
    EndChar(delimiter, After(fields, f), end, rest);
  }

  /** What any field becomes that the text ends, inside quotes or outside. */
  lemma LastField(delimiter: char, fields: Row, f: string)
    requires Accepted(delimiter) && OneField(delimiter, f)
    ensures Parse(delimiter, Start(fields), f) == (
      if fields == [] && (f == [] || f == ['"']) then Parsed(None, |f| + 1)
      else if f == ['"'] then Underrun
      else Parsed(Some(fields + [FieldText(f)]), |f| + 1))
  {
    hide Step, LastRun, Halved, Body, FieldText, Inside, OneField;
    FieldRun(delimiter, fields, f, []);
    assert f + [] == f;
    FieldEnd(fields, f);
  }

  // ------------------------------------------------------------------ printing

  /** A field that needs no quotes. */
  predicate Plain(delimiter: char, f: string) {
    delimiter !in f && '\n' !in f && '"' !in f
  }

  /** What a field may contain at all: the parser drops carriage returns and stops at the terminator. */
  predicate Printable(f: string) {
    '\r' !in f && '\0' !in f
  }

  /** The field with every quote written twice, as it stands between the quotes that enclose it. */
  function QuotesDoubled(f: string): string {
    if f == [] then [] else (if f[0] == '"' then ['"', '"'] else [f[0]]) + QuotesDoubled(f[1..])
  }

  /** A field with the choice of quoting it. */
  datatype Field = Field(text: string, quoted: bool) {
    predicate Ok(delimiter: char) { Printable(text) && (quoted || Plain(delimiter, text)) }

    function Print(): string {
      if quoted then ['"'] + QuotesDoubled(text) + ['"'] else text
    }
  }

  function PrintRow(delimiter: char, row: seq<Field>): string
    requires row != []
  {
    if |row| == 1 then row[0].Print() + ['\n']
    else row[0].Print() + [delimiter] + PrintRow(delimiter, row[1..])
  }

  predicate RowOk(delimiter: char, row: seq<Field>) {
    row != [] && forall i :: 0 <= i < |row| ==> row[i].Ok(delimiter)
  }

  function PrintRows(delimiter: char, rows: seq<seq<Field>>): string
    requires forall i :: 0 <= i < |rows| ==> rows[i] != []
  {
    if rows == [] then [] else PrintRow(delimiter, rows[0]) + PrintRows(delimiter, rows[1..])
  }

  function Texts(row: seq<Field>): (r: Row)
    ensures |r| == |row| && forall i :: 0 <= i < |row| ==> r[i] == row[i].text
  {
    seq(|row|, i requires 0 <= i < |row| => row[i].text)
  }

  // ------------------------------------------------------------------ the round trip

  lemma {:induction false} PlainField(delimiter: char, fields: Row, done: string, f: string, end: char, rest: string)
    requires Accepted(delimiter) && Printable(f) && Plain(delimiter, f) && (end == delimiter || end == '\n')
    ensures Parse(delimiter, State(fields, done, false, 0, false), f + [end] + rest)
      == Add(|f|, AtEnd(delimiter, fields, done + f, end, rest))
    decreases |f|
  {
    var text := f + [end] + rest;
    if f == [] {
      assert text == [end] + rest && text[1..] == rest;
      assert done + f == done;
    } else {
      assert text[1..] == f[1..] + [end] + rest;
      PlainField(delimiter, fields, done + [f[0]], f[1..], end, rest);
      assert done + [f[0]] + f[1..] == done + f;
      assert text[0] == f[0] && f[0] in f;
    }
  }

  function AfterQuote(s: State): (t: State)
    requires Sound(s)
    ensures Sound(t) && t.field != []
  {
    var t := Counted(s, '"');
    t.(field := t.field + ['"'], lastIsQuote := true)
  }

  lemma TwoQuotes(s: State)
    requires Sound(s) && s.inside && s.quotes % 2 == 0 && (s.field != [] || s.lastIsQuote)
    ensures AfterQuote(s).lastIsQuote
    ensures AfterQuote(AfterQuote(s)) == s.(field := s.field + ['"'], quotes := s.quotes + 2, lastIsQuote := true)
  {
    assert DropLast(s.field + ['"']) == s.field;
  }

  lemma QuoteStep(delimiter: char, s: State, tail: string)
    requires Accepted(delimiter) && Sound(s) && (s.field != [] || s.lastIsQuote)
    ensures Parse(delimiter, s, ['"'] + tail) == Add(1, Parse(delimiter, AfterQuote(s), tail))
  {
    assert (['"'] + tail)[1..] == tail;
  }

  /** A doubled quote inside quotes is one quote of the field. */
  lemma QuotePair(delimiter: char, s: State, tail: string)
    requires Accepted(delimiter) && Sound(s) && s.inside && s.quotes % 2 == 0 && (s.field != [] || s.lastIsQuote)
    ensures Parse(delimiter, s, ['"', '"'] + tail)
      == Add(2, Parse(delimiter, s.(field := s.field + ['"'], quotes := s.quotes + 2, lastIsQuote := true), tail))
  {
    hide Parse, AfterQuote;
    TwoQuotes(s);
    assert ['"', '"'] + tail == ['"'] + (['"'] + tail);
    QuoteStep(delimiter, s, ['"'] + tail);
    QuoteStep(delimiter, AfterQuote(s), tail);
  }

  /** Any other character inside quotes, the delimiter and the newline included, is the field's. */
  lemma QuotedChar(delimiter: char, s: State, c: char, tail: string)
    requires Accepted(delimiter) && Sound(s) && s.inside && (s.field != [] || s.lastIsQuote) && c != '"' && c != '\r'
    ensures Parse(delimiter, s, [c] + tail)
      == Add(1, Parse(delimiter, s.(field := s.field + [c], quotes := 0, lastIsQuote := false), tail))
  {
    assert ([c] + tail)[1..] == tail;
  }

  lemma Closed(s: State)
    requires Sound(s) && s.inside && s.quotes % 2 == 0 && (s.field != [] || s.lastIsQuote)
    ensures var t := AfterQuote(s);
      !t.inside && t.fields == s.fields && TerminatorIndex(t) >= 0 && Finished(t) == s.field
  {
  }

  lemma ClosingQuote(delimiter: char, fields: Row, s: State, end: char, rest: string)
    requires Accepted(delimiter) && (end == delimiter || end == '\n')
    requires s.fields == fields && Sound(s) && s.inside && s.quotes % 2 == 0 && (s.field != [] || s.lastIsQuote)
    ensures Parse(delimiter, s, ['"', end] + rest) == Add(1, AtEnd(delimiter, fields, s.field, end, rest))
  {
    hide Parse, AtEnd, AfterQuote;
    var text := ['"', end] + rest;
    assert text == ['"'] + ([end] + rest);
    QuoteStep(delimiter, s, [end] + rest);
    Closed(s);
    EndChar(delimiter, AfterQuote(s), end, rest);
  }

  /** Inside quotes, with an even number of quotes just read. */
  lemma {:induction false} QuotedField(delimiter: char, fields: Row, s: State, f: string, end: char, rest: string)
    requires Accepted(delimiter) && Printable(f) && (end == delimiter || end == '\n')
    requires s.fields == fields && Sound(s) && s.inside && s.quotes % 2 == 0 && (s.field != [] || s.lastIsQuote)
    ensures Parse(delimiter, s, QuotesDoubled(f) + ['"', end] + rest)
      == Add(|QuotesDoubled(f)| + 1, AtEnd(delimiter, fields, s.field + f, end, rest))
    decreases |f|
  {
    hide Parse, AtEnd;
    var text := QuotesDoubled(f) + ['"', end] + rest;
    if f == [] {
      ClosingQuote(delimiter, fields, s, end, rest);
      assert text == ['"', end] + rest && s.field + f == s.field;
    } else {
      var tail := QuotesDoubled(f[1..]) + ['"', end] + rest;
      assert f[0] in f && s.field + [f[0]] + f[1..] == s.field + f;
      if f[0] == '"' {
        assert text == ['"', '"'] + tail;
        QuotePair(delimiter, s, tail);
        QuotedField(delimiter, fields, s.(field := s.field + ['"'], quotes := s.quotes + 2, lastIsQuote := true),
          f[1..], end, rest);
      } else {
        assert text == [f[0]] + tail;
        QuotedChar(delimiter, s, f[0], tail);
        QuotedField(delimiter, fields, s.(field := s.field + [f[0]], quotes := 0, lastIsQuote := false),
          f[1..], end, rest);
      }
    }
  }

  /** A printed field is read back, whichever way it was printed. */
  lemma FieldReadBack(delimiter: char, fields: Row, f: Field, end: char, rest: string)
    requires Accepted(delimiter) && f.Ok(delimiter) && (end == delimiter || end == '\n')
    ensures Parse(delimiter, Start(fields), f.Print() + [end] + rest)
      == Add(|f.Print()|, AtEnd(delimiter, fields, f.text, end, rest))
  {
    if f.quoted {
      var text := f.Print() + [end] + rest;
      var tail := QuotesDoubled(f.text) + ['"', end] + rest;
      assert text == ['"'] + tail && text[1..] == tail;
      QuotedField(delimiter, fields, Start(fields).(inside := true, lastIsQuote := true), f.text, end, rest);
      assert [] + f.text == f.text;
    } else {
      PlainField(delimiter, fields, [], f.text, end, rest);
      assert [] + f.text == f.text;
    }
  }

  /** A printed row is read back, and the parser stops behind it. */
  lemma {:induction false} RowReadBack(delimiter: char, fields: Row, row: seq<Field>, rest: string)
    requires Accepted(delimiter) && RowOk(delimiter, row)
    ensures Parse(delimiter, Start(fields), PrintRow(delimiter, row) + rest)
      == Parsed(Some(fields + Texts(row)), |PrintRow(delimiter, row)|)
    decreases |row|
  {
    hide Parse, Field.Print;
    var text := PrintRow(delimiter, row) + rest;
    var first := row[0].Print();
    if |row| == 1 {
      assert text == first + ['\n'] + rest;
      FieldReadBack(delimiter, fields, row[0], '\n', rest);
      assert Texts(row) == [row[0].text];
    } else {
      var tail := PrintRow(delimiter, row[1..]) + rest;
      assert text == first + [delimiter] + tail;
      FieldReadBack(delimiter, fields, row[0], delimiter, tail);
      RowReadBack(delimiter, fields + [row[0].text], row[1..], rest);
      assert fields + [row[0].text] + Texts(row[1..]) == fields + Texts(row);
    }
  }

  function AllTexts(rows: seq<seq<Field>>): (r: seq<Row>)
    ensures |r| == |rows| && forall i :: 0 <= i < |rows| ==> r[i] == Texts(rows[i])
  {
    seq(|rows|, i requires 0 <= i < |rows| => Texts(rows[i]))
  }

  ghost predicate RowsOk(delimiter: char, rows: seq<seq<Field>>) {
    forall i :: 0 <= i < |rows| ==> RowOk(delimiter, rows[i])
  }

  /** One turn of the loop, assignment by assignment. */
  lemma Turn(delimiter: char, s: State, c: char)
    requires Accepted(delimiter) && Sound(s)
    ensures c == '\r' ==> Step(delimiter, s, c) == Some(s)
    ensures s.field == [] && !s.lastIsQuote && c == '"' ==>
      Step(delimiter, s, c) == Some(State(s.fields, [], true, s.quotes, true))
    ensures c != '\r' && !(s.field == [] && !s.lastIsQuote && c == '"') ==> (
      var first := s.field == [] && !s.lastIsQuote;
      var quotes := if first then s.quotes else if c == '"' then s.quotes + 1 else 0;
      var inside := if !first && c == '"' then quotes % 2 == 0 else s.inside;
      var cut := !first && c == '"' && inside;
      && (cut ==> s.field != [])
      && var field := if cut then DropLast(s.field) else s.field;
         if (c == delimiter || c == '\n') && !inside then
           && (s.lastIsQuote ==> field != [])
           && Finished(s) == (if s.lastIsQuote then DropLast(field) else field)
           && Step(delimiter, s, c) == if c == '\n' then None
                else Some(State(s.fields + [Finished(s)], [], false, quotes, false))
         else Step(delimiter, s, c) == Some(State(s.fields, field + [c], inside, quotes, c == '"')))
  {
  }

  /** `CsvParser` on a string. */
  class Parser {
    const csvString: Option<string>
    const delimiter: char
    const firstLineIsHeader: bool

    var iter: nat
    var header: Option<Row>
    var errMsg: Option<string>

    /** What is left to read, while the end has not been read. */
    function Rest(): string
      requires csvString.Some? && iter <= |csvString.value|
      reads this
    {
      csvString.value[iter..]
    }

    /** A string to read, a delimiter that was accepted, and the end not yet read. */
    predicate Ready()
      reads this
    {
      csvString.Some? && '\0' !in csvString.value && Accepted(delimiter) && iter <= |csvString.value|
    }

    constructor FromString(csvString: Option<string>, delimiter: Option<char>, firstLineIsHeader: bool)
      ensures this.csvString == csvString && this.firstLineIsHeader == firstLineIsHeader
      ensures match delimiter
        case None => this.delimiter == ','
        case Some(d) => this.delimiter == if d == '\n' || d == '\r' || d == '\0' || d == '"' then '\0' else d
      ensures this.delimiter != '\0' && csvString.Some? && '\0' !in csvString.value ==> Ready()
      ensures iter == 0 && header == None && errMsg == None
    {
      this.csvString, this.firstLineIsHeader := csvString, firstLineIsHeader;
      this.delimiter := match delimiter case None => ',' case Some(d) => if Accepted(d) then d else '\0';
      iter, header, errMsg := 0, None, None;
    }

    /** `_CsvParser_getRow`. */
    method NextRow() returns (row: Option<Row>)
      requires csvString.Some? && delimiter != '\0' ==> Ready() && !EndsAtOpeningQuote(delimiter, Rest())
      modifies `iter, `errMsg
      ensures !(csvString.Some? && delimiter != '\0') ==> row == None && iter == old(iter)
      ensures csvString.Some? && delimiter != '\0' ==> (
        var p := Parse(delimiter, Start([]), old(Rest()));
        p.Parsed? && row == p.row && iter == old(iter) + p.used)
      ensures errMsg == if row.Some? then old(errMsg) else Some(
        if csvString == None then "Supplied CSV string is NULL"
        else if delimiter == '\0' then "Supplied delimiter is not supported"
        else "Reached EOF")
    {
      if csvString == None {
        errMsg := Some("Supplied CSV string is NULL");
        return None;
      }
      if delimiter == '\0' {
        errMsg := Some("Supplied delimiter is not supported");
        return None;
      }
      var text := csvString.value;
      var fields, currField, insideComplexField, seriesOfQuotesLength, lastCharIsQuote := [], [], false, 0, false;
      hide Parse, EndsAtOpeningQuote, Reached, Add, Step;
      ghost var start := iter;
      UnderrunExactly(delimiter, text[start..]);
      ReachedStart(delimiter, text, start);
      while true
        invariant start <= iter <= |text| && errMsg == old(errMsg)
        invariant Sound(State(fields, currField, insideComplexField, seriesOfQuotesLength, lastCharIsQuote))
        invariant Reached(delimiter, text, start, iter,
                          State(fields, currField, insideComplexField, seriesOfQuotesLength, lastCharIsQuote))
        decreases |text| - iter
      {
        var currChar := if iter < |text| then text[iter] else '\0';
        ghost var s := State(fields, currField, insideComplexField, seriesOfQuotesLength, lastCharIsQuote);
        NextReached(delimiter, text, start, iter, s);
        Turn(delimiter, s, currChar);
        iter := iter + 1;
        var isEndOfFile := currChar == '\0';
        if isEndOfFile {
          if currField == [] && fields == [] {
            errMsg := Some("Reached EOF");
            return None;
          }
          currChar := '\n';
        }
        if currChar == '\r' { continue; }
        if currField == [] && !lastCharIsQuote {
          if currChar == '"' {
            insideComplexField, lastCharIsQuote := true, true;
            continue;
          }
        } else if currChar == '"' {
          seriesOfQuotesLength := seriesOfQuotesLength + 1;
          insideComplexField := seriesOfQuotesLength % 2 == 0;
          if insideComplexField { currField := DropLast(currField); }
        } else {
          seriesOfQuotesLength := 0;
        }
        if isEndOfFile || ((currChar == delimiter || currChar == '\n') && !insideComplexField) {
          fields := fields + [if lastCharIsQuote then DropLast(currField) else currField];
          assert s.field[..|s.field|] == s.field;
          if currChar == '\n' { return Some(fields); }
          currField, insideComplexField := [], false;
        } else {
          currField := currField + [currChar];
        }
        lastCharIsQuote := currChar == '"';
      }
      assert false;
    }

    /** `CsvParser_getRow`: the first call also reads the header, which must not take the terminator along. */
    method GetRow() returns (row: Option<Row>)
      requires csvString.Some? && delimiter != '\0' ==> Ready() && !EndsAtOpeningQuote(delimiter, Rest())
      requires csvString.Some? && delimiter != '\0' && firstLineIsHeader && header == None ==> (
        var p := Parse(delimiter, Start([]), Rest());
        p.Parsed? && !TakesTerminator(delimiter, Rest()) && !EndsAtOpeningQuote(delimiter, Rest()[p.used..]))
      modifies this
      ensures !(csvString.Some? && delimiter != '\0') ==>
        row == None && errMsg.Some? && iter == old(iter) && header == old(header)
      ensures csvString.Some? && delimiter != '\0' ==> (
        var p := Parse(delimiter, Start([]), old(Rest()));
        if firstLineIsHeader && old(header) == None then
          var q := Parse(delimiter, Start([]), old(Rest())[p.used..]);
          p.Parsed? && q.Parsed? && header == p.row && row == q.row && iter == old(iter) + p.used + q.used
        else p.Parsed? && header == old(header) && row == p.row && iter == old(iter) + p.used)
    {
      if firstLineIsHeader && header == None {
        ghost var rest := if Ready() then Rest() else [];
        header := NextRow();
        assert Ready() ==> Rest() == rest[Parse(delimiter, Start([]), rest).used..];
      }
      row := NextRow();
    }
  }

  lemma NothingLeft(delimiter: char, rows: seq<seq<Field>>)
    requires Accepted(delimiter) && rows == []
    ensures Parse(delimiter, Start([]), PrintRows(delimiter, rows)) == Parsed(None, 1)
  {
  }

  lemma NextReadBack(delimiter: char, rows: seq<seq<Field>>)
    requires Accepted(delimiter) && rows != [] && RowsOk(delimiter, rows)
    ensures Parse(delimiter, Start([]), PrintRows(delimiter, rows))
      == Parsed(Some(Texts(rows[0])), |PrintRow(delimiter, rows[0])|)
    ensures PrintRows(delimiter, rows)[|PrintRow(delimiter, rows[0])|..] == PrintRows(delimiter, rows[1..])
    ensures |PrintRow(delimiter, rows[0])| <= |PrintRows(delimiter, rows)|
  {
    RowReadBack(delimiter, [], rows[0], PrintRows(delimiter, rows[1..]));
    assert [] + Texts(rows[0]) == Texts(rows[0]);
  }

  /** The next row of a printed text, wherever carriage returns have been put in. */
  lemma NextWithReturns(delimiter: char, rest: string, rows: seq<seq<Field>>)
    requires Accepted(delimiter) && RowsOk(delimiter, rows) && WithoutReturns(rest) == PrintRows(delimiter, rows)
    ensures !EndsAtOpeningQuote(delimiter, rest)
    ensures var p := Parse(delimiter, Start([]), rest);
      p.Parsed? && if rows == [] then p.row == None
      else
        && p.row == Some(Texts(rows[0])) && p.used <= |rest|
        && WithoutReturns(rest[p.used..]) == PrintRows(delimiter, rows[1..])
  {
    hide Parse, PrintRows, PrintRow, WithoutReturns, EndsAtOpeningQuote, RowsOk;
    ReturnsPassed(delimiter, Start([]), rest);
    UnderrunExactly(delimiter, rest);
    if rows == [] {
      NothingLeft(delimiter, rows);
    } else {
      NextReadBack(delimiter, rows);
      var used := Parse(delimiter, Start([]), rest).used;
      ReturnsAppend(rest[..used], rest[used..]);
      assert rest[..used] + rest[used..] == rest;
    }
  }

  /** Reading what was printed: the rows in order, and then no more, wherever carriage returns have been put in. */
  method ReadAll(p: Parser, ghost rows: seq<seq<Field>>) returns (all: seq<Row>)
    requires p.Ready() && Accepted(p.delimiter) && RowsOk(p.delimiter, rows)
    requires WithoutReturns(p.Rest()) == PrintRows(p.delimiter, rows)
    modifies p
    ensures all == AllTexts(rows)
  {
    hide Parse, PrintRows, PrintRow, WithoutReturns, EndsAtOpeningQuote;
    all := [];
    ghost var n := 0;
    while true
      invariant n <= |rows| && p.Ready() && WithoutReturns(p.Rest()) == PrintRows(p.delimiter, rows[n..])
      invariant all == AllTexts(rows[..n])
      decreases |rows| - n
    {
      ghost var rest := p.Rest();
      NextWithReturns(p.delimiter, rest, rows[n..]);
      var row := p.NextRow();
      if row == None {
        assert rows[..n] == rows;
        return;
      }
      assert rows[n..][1..] == rows[n + 1..];
      assert p.Rest() == rest[Parse(p.delimiter, Start([]), rest).used..];
      all := all + [row.value];
      n := n + 1;
    }
    assert false;
  }

  /** Rows printed with the line ends of section 2 of RFC 4180, a carriage return and a newline. */
  function PrintDosRows(delimiter: char, rows: seq<seq<Field>>): string
    requires forall i :: 0 <= i < |rows| ==> rows[i] != []
  {
    if rows == [] then []
    else DropLast(PrintRow(delimiter, rows[0])) + ['\r', '\n'] + PrintDosRows(delimiter, rows[1..])
  }

  lemma {:induction false} DoubledReturns(f: string)
    requires '\r' !in f
    ensures '\r' !in QuotesDoubled(f)
  {
    if f != [] {
      assert f[0] in f;
      DoubledReturns(f[1..]);
    }
  }

  lemma {:induction false} RowEndsInNewline(delimiter: char, row: seq<Field>)
    requires Accepted(delimiter) && RowOk(delimiter, row)
    ensures var r := PrintRow(delimiter, row); r != [] && r[|r| - 1] == '\n' && '\r' !in r
    decreases |row|
  {
    DoubledReturns(row[0].text);
    if |row| > 1 { RowEndsInNewline(delimiter, row[1..]); }
  }

  lemma DosEnd(row: string, rest: string)
    requires row != [] && row[|row| - 1] == '\n' && '\r' !in row
    ensures WithoutReturns(DropLast(row) + ['\r', '\n'] + rest) == row + WithoutReturns(rest)
  {
    hide WithoutReturns;
    var line := DropLast(row);
    ReturnsAppend(line + ['\r', '\n'], rest);
    ReturnsAppend(line, ['\r', '\n']);
    ReturnsCons('\r', ['\n']);
    assert ['\r'] + ['\n'] == ['\r', '\n'] && [] + WithoutReturns(['\n']) == ['\n'];
    assert line + ['\n'] == row;
  }

  /** Without the carriage returns that is what was printed, so it is read back as well. */
  lemma {:induction false} DosRows(delimiter: char, rows: seq<seq<Field>>)
    requires Accepted(delimiter) && RowsOk(delimiter, rows)
    ensures WithoutReturns(PrintDosRows(delimiter, rows)) == PrintRows(delimiter, rows)
  {
    if rows != [] {
      hide PrintRow, WithoutReturns, DropLast;
      var row := PrintRow(delimiter, rows[0]);
      RowEndsInNewline(delimiter, rows[0]);
      DosRows(delimiter, rows[1..]);
      DosEnd(row, PrintDosRows(delimiter, rows[1..]));
    }
  }
}
