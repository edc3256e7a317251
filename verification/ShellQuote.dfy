/**
  Quoting for shell consumption: `single_quote_stringn` of SCOREP_Config.c, and the reader it is
  meant for, the quoting rules of sections 2.2.1 and 2.2.2 of the POSIX.1-2017 Shell Command
  Language.
*/
module ShellQuote {
  datatype Word = Word(text: string) | Malformed

  /** Characters that mean something to the shell unless they are quoted (section 2.2). */
  predicate Special(c: char)
  {
    c in "|&;<>()$`\\\"' \t\n*?[#~=%"
  }

  /** Reads one word. A backslash outside quotes preserves the next character, or joins lines; a pair of
      single quotes preserves everything between them. */
  function Read(text: string, inside: bool): Word
  {
    if text == [] then
      if inside then Malformed else Word([])
    else if inside then
      if text[0] == '\'' then Read(text[1..], false) else Prepend(text[0], Read(text[1..], true))
    else if text[0] == '\'' then Read(text[1..], true)
    else if text[0] == '\\' then
      if |text| == 1 then Malformed
      else if text[1] == '\n' then Read(text[2..], false)
      else Prepend(text[1], Read(text[2..], false))
    else if Special(text[0]) then Malformed
    else Prepend(text[0], Read(text[1..], false))
  }

  function Prepend(c: char, w: Word): Word
  {
    if w.Malformed? then Malformed else Word([c] + w.text)
  }

  predicate Escaped(c: char)
  {
    c == '\'' || c == '!'
  }

  /** What a character becomes inside the quotes. */
  function QuotedChar(c: char): (q: string)
    ensures |q| == if Escaped(c) then 4 else 1
  {
    if Escaped(c) then ['\'', '\\', c, '\''] else [c]
  }

  function QuotedBody(s: string): string
  {
    if s == [] then [] else QuotedBody(s[..|s| - 1]) + QuotedChar(s[|s| - 1])
  }

  function Quoted(s: string): string
  {
    "'" + QuotedBody(s) + "'"
  }

  /** The first loop of `single_quote_stringn` counts. */
  method QuotedLength(s: string) returns (newLength: nat)
    ensures newLength == |Quoted(s)|
  {
    newLength := |s| + 2;
    var i := 0;
    while i < |s|
      invariant 0 <= i <= |s| && newLength == 2 + |QuotedBody(s[..i])| + |s| - i
    {
      BodySnoc(s, i);
      if s[i] == '\'' || s[i] == '!' {
        newLength := newLength + 3;
      }
      i := i + 1;
    }
    assert s[..|s|] == s;
  }

  /** `single_quote_stringn`: the second loop writes exactly as many characters as were counted, and
      a terminator follows. */
  method SingleQuote(s: string) returns (quoted: array<char>)
    ensures fresh(quoted) && quoted.Length == |Quoted(s)| + 1
    ensures quoted[..|Quoted(s)|] == Quoted(s) && quoted[|Quoted(s)|] == '\0'
  {
    var newLength := QuotedLength(s);
    quoted := new char[newLength + 1](_ => '\0');
    quoted[0] := '\'';
    assert quoted[..1] == "'";
    var at := WriteBody(quoted, s);
    quoted[at] := '\'';
    assert quoted[..at + 1] == Quoted(s);
    quoted[at + 1] := '\0';
  }

  /** The second loop. */
  method WriteBody(buffer: array<char>, s: string) returns (at: nat)
    requires buffer.Length == |Quoted(s)| + 1 && buffer[..1] == "'"
    modifies buffer
    ensures at + 1 == |Quoted(s)| && buffer[..at] == "'" + QuotedBody(s)
  {
    at := 1;
    var i := 0;
    BodyPrefix(s, 0);
    while i < |s|
      invariant 0 <= i <= |s|
      invariant at == 1 + |QuotedBody(s[..i])| < buffer.Length
      invariant buffer[..at] == "'" + QuotedBody(s[..i])
    {
      BodySnoc(s, i);
      BodyPrefix(s, i + 1);
      at := WriteQuoted(buffer, at, s[i]);
      i := i + 1;
    }
    assert s[..i] == s;
  }

  /** The switch in the second loop. */
  method WriteQuoted(buffer: array<char>, at: nat, c: char) returns (at': nat)
    requires at + |QuotedChar(c)| < buffer.Length
    modifies buffer
    ensures at' == at + |QuotedChar(c)|
    ensures buffer[..at'] == old(buffer[..at]) + QuotedChar(c)
  {
    if c == '\'' || c == '!' {
      buffer[at] := '\'';
      buffer[at + 1] := '\\';
      buffer[at + 2] := c;
      buffer[at + 3] := '\'';
      at' := at + 4;
    } else {
      buffer[at] := c;
      at' := at + 1;
    }
  }

  lemma BodySnoc(s: string, i: nat)
    requires i < |s|
    ensures QuotedBody(s[..i + 1]) == QuotedBody(s[..i]) + QuotedChar(s[i])
  {
    assert s[..i + 1][..i] == s[..i];
  }

  lemma {:induction false} BodyPrefix(s: string, n: nat)
    requires n <= |s|
    ensures |QuotedBody(s[..n])| <= |QuotedBody(s)|
    decreases |s| - n
  {
    if n < |s| {
      BodySnoc(s, n);
      BodyPrefix(s, n + 1);
    } else {
      assert s[..n] == s;
    }
  }

  // ------------------------------------------------------------------ the reader gets the string back

  function Append(w: Word, rest: Word): Word
  {
    if w.Malformed? || rest.Malformed? then Malformed else Word(w.text + rest.text)
  }

  /** The body from its front. */
  lemma {:induction false} BodyCons(s: string)
    requires s != []
    ensures QuotedBody(s) == QuotedChar(s[0]) + QuotedBody(s[1..])
  {
    var last := |s| - 1;
    if last > 0 {
      BodyCons(s[..last]);
      assert s[..last][1..] == s[1..][..last - 1];
    } else {
      assert s[..last] == [] && s[1..] == [];
      assert QuotedBody(s) == QuotedBody(s[..last]) + QuotedChar(s[0]);
    }
  }

  lemma ReadChar(c: char, rest: string)
    ensures Read(QuotedChar(c) + rest, true) == Prepend(c, Read(rest, true))
  {
    var text := QuotedChar(c) + rest;
    if Escaped(c) {
      assert text[1..] == ['\\', c, '\''] + rest;
      assert text[1..][2..] == ['\''] + rest;
      assert (['\''] + rest)[1..] == rest;
      assert Read(text[1..], false) == Prepend(c, Read(['\''] + rest, false));
    } else {
      assert text[1..] == rest;
    }
  }

  lemma PrependAppend(s: string, w: Word)
    requires s != []
    ensures Prepend(s[0], Append(Word(s[1..]), w)) == Append(Word(s), w)
  {
    assert w.Word? ==> [s[0]] + (s[1..] + w.text) == s + w.text;
  }

  lemma {:induction false} ReadBody(s: string, rest: string)
    ensures Read(QuotedBody(s) + "'" + rest, true) == Append(Word(s), Read(rest, false))
  {
    if s == [] {
      var text := QuotedBody(s) + "'" + rest;
      assert text[1..] == rest;
    } else {
      BodyCons(s);
      assert QuotedBody(s) + "'" + rest == QuotedChar(s[0]) + (QuotedBody(s[1..]) + "'" + rest);
      ReadChar(s[0], QuotedBody(s[1..]) + "'" + rest);
      ReadBody(s[1..], rest);
      PrependAppend(s, Read(rest, false));
    }
  }

  /** In front of any other text, a quoted string is read as the string. */
  lemma ReadQuoted(s: string, rest: string)
    ensures Read(Quoted(s) + rest, false) == Append(Word(s), Read(rest, false))
  {
    var text := Quoted(s) + rest;
    assert text[1..] == QuotedBody(s) + "'" + rest;
    ReadBody(s, rest);
  }

  // ------------------------------------------------------------------ exclamation marks

  /** No exclamation mark stands inside single quotes, and outside of them only behind a backslash. */
  predicate BangsGuarded(text: string, inside: bool)
  {
    if text == [] then true
    else if inside then text[0] != '!' && BangsGuarded(text[1..], text[0] != '\'')
    else if text[0] == '\\' && |text| > 1 then BangsGuarded(text[2..], false)
    else text[0] != '!' && BangsGuarded(text[1..], text[0] == '\'')
  }

  lemma GuardedChar(c: char, rest: string)
    ensures BangsGuarded(QuotedChar(c) + rest, true) <==> BangsGuarded(rest, true)
  {
    var text := QuotedChar(c) + rest;
    if Escaped(c) {
      assert text[1..] == ['\\', c, '\''] + rest;
      assert text[1..][2..] == ['\''] + rest;
      assert (['\''] + rest)[1..] == rest;
      assert BangsGuarded(text[1..], false) == BangsGuarded(['\''] + rest, false);
    } else {
      assert text[1..] == rest;
    }
  }

  lemma {:induction false} GuardedBody(s: string, rest: string)
    ensures BangsGuarded(QuotedBody(s) + rest, true) <==> BangsGuarded(rest, true)
  {
    if s == [] {
      assert QuotedBody(s) + rest == rest;
    } else {
      BodyCons(s);
      assert QuotedBody(s) + rest == QuotedChar(s[0]) + (QuotedBody(s[1..]) + rest);
      GuardedChar(s[0], QuotedBody(s[1..]) + rest);
      GuardedBody(s[1..], rest);
    }
  }

  /** A shell that expands the history finds nothing to expand in a quoted string. */
  lemma NoBangExposed(s: string)
    ensures BangsGuarded(Quoted(s), false)
  {
    var text := Quoted(s);
    assert text[1..] == QuotedBody(s) + "'";
    GuardedBody(s, "'");
    assert "'"[1..] == "";
  }

  /** The shell reads back every string that was quoted. */
  lemma QuoteRoundTrip(s: string)
    ensures Read(Quoted(s), false) == Word(s)
  {
    ReadQuoted(s, "");
    assert Quoted(s) + "" == Quoted(s);
  }
}
