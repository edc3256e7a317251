/**
  The help printer's word wrapping in plain text: `wrap_lines` of SCOREP_Config.c.
*/
module WrapLines {
  // ------------------------------------------------------------------ words

  predicate IsBlank(c: char)
  {
    c == ' ' || c == '\t' || c == '\n' || c == '\r' || c == '\U{000B}'
  }

  function BlankEnd(s: string, i: nat): (e: nat)
    requires i <= |s|
    ensures i <= e <= |s|
    ensures e < |s| ==> !IsBlank(s[e])
    decreases |s| - i
  {
    if i < |s| && IsBlank(s[i]) then BlankEnd(s, i + 1) else i
  }

  function WordEnd(s: string, i: nat): (e: nat)
    requires i <= |s|
    ensures i <= e <= |s|
    ensures e < |s| ==> IsBlank(s[e])
    ensures i < |s| && !IsBlank(s[i]) ==> i < e
    decreases |s| - i
  {
    if i < |s| && !IsBlank(s[i]) then WordEnd(s, i + 1) else i
  }

  /** What follows a word: the next one, a line break, or an empty line. */
  datatype After = Space | Break | Paragraph

  datatype Item = Item(word: string, after: After)

  /** A newline breaks the line only directly behind a word. */
  function AfterWord(s: string, e: nat): After
  {
    if e < |s| && s[e] == '\n' then
      if e + 1 < |s| && s[e + 1] == '\n' then Paragraph else Break
    else Space
  }

  function ItemAt(s: string, i: nat): (item: Item)
    requires i < |s| && !IsBlank(s[i])
    ensures |item.word| == WordEnd(s, i) - i > 0
  {
    Item(s[i..WordEnd(s, i)], AfterWord(s, WordEnd(s, i)))
  }

  /** The words of a message from position i on. */
  function Items(s: string, i: nat): seq<Item>
    requires i <= |s|
    decreases |s| - i
  {
    var start := BlankEnd(s, i);
    if start == |s| then [] else [ItemAt(s, start)] + Items(s, WordEnd(s, start))
  }

  // ------------------------------------------------------------------ lines

  /** Non-breaking spaces are printed as spaces. */
  function Printed(word: string): (p: string)
    ensures |p| == |word|
  {
    seq(|word|, i requires 0 <= i < |word| => if word[i] == '\U{00A0}' then ' ' else word[i])
  }

  /** A line has at least one word. */
  datatype Line = First(item: Item) | Longer(before: Line, item: Item)

  function LineText(line: Line): string
  {
    match line
    case First(item) => Printed(item.word)
    case Longer(before, item) => LineText(before) + " " + Printed(item.word)
  }

  function Width(line: Line): nat
  {
    |LineText(line)|
  }

  /** The lines of a message, the last one at hand. */
  datatype Page = Blank | Lines(above: Page, last: Line)

  /** `%*s` of the empty string: a negative width means the same number of spaces. */
  function Spaces(n: int): string
  {
    seq(if n < 0 then -n else n, _ => ' ')
  }

  /** What is printed in front of a line that is not the first. */
  function LineBreak(after: After, indent: int): string
  {
    (if after == Paragraph then "\n\n" else "\n") + Spaces(indent)
  }

  function Start(indent: int, firstIndent: int): string
  {
    if firstIndent <= 0 then "\n" + Spaces(indent) else Spaces(firstIndent)
  }

  /** What is printed up to the beginning of a line, given the lines above it. */
  function Front(above: Page, indent: int, firstIndent: int): string
    decreases above, 1
  {
    match above
    case Blank => Start(indent, firstIndent)
    case Lines(_, last) => Text(above, indent, firstIndent) + LineBreak(last.item.after, indent)
  }

  function Text(page: Page, indent: int, firstIndent: int): string
    decreases page, 0
  {
    match page
    case Blank => ""
    case Lines(above, last) => Front(above, indent, firstIndent) + LineText(last)
  }

  function LineWords(line: Line): seq<Item>
  {
    match line
    case First(item) => [item]
    case Longer(before, item) => LineWords(before) + [item]
  }

  function Words(page: Page): seq<Item>
  {
    match page
    case Blank => []
    case Lines(above, last) => Words(above) + LineWords(last)
  }

  // ------------------------------------------------------------------ the greedy layout

  /** Whether a word goes on the line that the previous word is on. */
  predicate Joins(line: Line, item: Item, column: int)
  {
    line.item.after == Space && Width(line) + 1 + |item.word| <= column
  }

  function Place(page: Page, item: Item, column: int): Page
  {
    if page.Lines? && Joins(page.last, item, column) then Lines(page.above, Longer(page.last, item))
    else Lines(page, First(item))
  }

  function PlaceAll(page: Page, items: seq<Item>, column: int): Page
    decreases |items|
  {
    if items == [] then page else PlaceAll(Place(page, items[0], column), items[1..], column)
  }

  /** The text after one more word. */
  lemma PlaceText(page: Page, item: Item, column: int, indent: int, firstIndent: int)
    ensures Text(Place(page, item, column), indent, firstIndent) ==
            if page.Lines? && Joins(page.last, item, column)
            then Text(page, indent, firstIndent) + " " + Printed(item.word)
            else Front(page, indent, firstIndent) + Printed(item.word)
  {
    if page.Lines? {
      Glue(Front(page.above, indent, firstIndent), LineText(page.last), " ", Printed(item.word));
    }
  }

  lemma Glue(a: string, b: string, c: string, d: string)
    ensures a + b + c + d == a + (b + c + d)
    ensures a + b + c + d == a + (b + c) + d
  {
  }

  // ------------------------------------------------------------------ good layouts

  /** Words on one line are not separated by a newline. */
  predicate Unbroken(line: Line)
  {
    line.Longer? ==> line.before.item.after == Space && Unbroken(line.before)
  }

  /** Several words on one line fit the column. */
  predicate LineOk(line: Line, column: int)
  {
    Unbroken(line) && (line.Longer? ==> Width(line) <= column)
  }

  function FirstItem(line: Line): Item
  {
    if line.First? then line.item else FirstItem(line.before)
  }

  /** A line ends because of a newline, or because the next word does not fit. */
  predicate BreakOk(line: Line, next: Line, column: int)
  {
    line.item.after != Space || Width(line) + 1 + |FirstItem(next).word| > column
  }

  predicate Layout(page: Page, column: int)
  {
    match page
    case Blank => true
    case Lines(above, last) =>
      Layout(above, column) && LineOk(last, column) && (above.Lines? ==> BreakOk(above.last, last, column))
  }

  lemma PlaceKeepsLayout(page: Page, item: Item, column: int)
    requires Layout(page, column)
    ensures Layout(Place(page, item, column), column)
    ensures Words(Place(page, item, column)) == Words(page) + [item]
  {
  }

  /** The layout holds exactly the words, in order; a line with several words is not wider than the
      column; and lines end only where they must. */
  lemma {:induction false} PlaceAllIsLayout(page: Page, items: seq<Item>, column: int)
    requires Layout(page, column)
    ensures Layout(PlaceAll(page, items, column), column)
    ensures Words(PlaceAll(page, items, column)) == Words(page) + items
    decreases |items|
  {
    if items != [] {
      PlaceKeepsLayout(page, items[0], column);
      PlaceAllIsLayout(Place(page, items[0], column), items[1..], column);
      assert Words(page) + items == (Words(page) + [items[0]]) + items[1..];
    }
  }

  lemma {:induction false} PlaceAllSnoc(page: Page, items: seq<Item>, item: Item, column: int)
    ensures PlaceAll(page, items + [item], column) == Place(PlaceAll(page, items, column), item, column)
    decreases |items|
  {
    var all := items + [item];
    if items == [] {
      assert all[1..] == [];
    } else {
      assert all[1..] == items[1..] + [item];
      PlaceAllSnoc(Place(page, items[0], column), items[1..], item, column);
    }
  }

  /** There is no other good layout: whatever lines hold the words and end only where they must are the
      greedy ones. */
  lemma {:induction false} LayoutIsGreedy(page: Page, column: int)
    requires Layout(page, column)
    ensures page == PlaceAll(Blank, Words(page), column)
    decreases |Words(page)|
  {
    match page
    case Blank =>
    case Lines(above, First(item)) =>
      LayoutIsGreedy(above, column);
      PlaceAllSnoc(Blank, Words(above), item, column);
    case Lines(above, Longer(before, item)) =>
      var shorter := Lines(above, before);
      assert Words(page) == Words(shorter) + [item];
      LayoutIsGreedy(shorter, column);
      PlaceAllSnoc(Blank, Words(shorter), item, column);
  }

  // ------------------------------------------------------------------ wrap_lines

  /** `dump_line`. */
  method DumpLine(word: string) returns (out: string)
    ensures out == Printed(word)
  {
    out := "";
    var i := 0;
    while i < |word|
      invariant 0 <= i <= |word| && out == Printed(word)[..i]
    {
      out := out + [if word[i] == '\U{00A0}' then ' ' else word[i]];
      i := i + 1;
    }
  }

  /** The code that tells what follows the last word: 1 a word, 3 a line break, 4 an empty line. */
  function Code(after: After): nat
  {
    match after
    case Space => 1
    case Break => 3
    case Paragraph => 4
  }

  /** What the variables of the loop say about the lines so far. The code 2 means that the next word
      does not fit on the last line. */
  ghost predicate State(page: Page, rest: seq<Item>, nl: nat, reminder: int, column: int)
  {
    match page
    case Blank => nl == 0 && reminder == column
    case Lines(_, last) =>
      && reminder == column - Width(last) < column
      && (if nl == 2 then last.item.after == Space && rest != [] && !Joins(last, rest[0], column)
          else nl == Code(last.item.after))
  }

  /** What is printed between the previous word and the next one. */
  function Lead(nl: nat, indent: int, firstIndent: int): string
  {
    if nl == 0 then Start(indent, firstIndent)
    else if nl == 1 then " "
    else LineBreak(if nl == 4 then Paragraph else Break, indent)
  }

  /** The switch: the separator to the previous word. Its cases fall through from 4 to 3 to 2. */
  method Separate(nl: nat, sep: string, reminder: int, column: int, indent: int, firstIndent: int)
    returns (out: string, sep': string, reminder': int)
    requires nl <= 4 && (nl == 1 ==> sep == " ") && (nl == 0 ==> reminder == column)
    ensures out + sep' == Lead(nl, indent, firstIndent)
    ensures if nl == 1 then out == "" && sep' == " " else sep' == ""
    ensures reminder' == if nl == 1 then reminder else column
  {
    out, sep', reminder' := "", sep, reminder;
    if nl == 0 {
      if firstIndent <= 0 {
        out := "\n" + Spaces(indent);
      } else {
        out := Spaces(firstIndent);
      }
      sep' := "";
    }
    if nl == 4 {
      out := out + "\n";
    }
    if nl == 2 || nl == 3 || nl == 4 {
      out := out + "\n" + Spaces(indent);
      reminder' := column;
      sep' := "";
    }
    assert "\n" + "\n" == "\n\n";
  }

  method SkipBlanks(s: string, i: nat) returns (e: nat)
    requires i <= |s|
    ensures e == BlankEnd(s, i) && Items(s, e) == Items(s, i)
  {
    e := i;
    while e < |s| && IsBlank(s[e])
      invariant i <= e <= |s| && BlankEnd(s, e) == BlankEnd(s, i)
    {
      e := e + 1;
    }
  }

  method WordLength(s: string, i: nat) returns (length: nat)
    requires i <= |s|
    ensures i + length == WordEnd(s, i)
  {
    length := 0;
    while i + length < |s| && !IsBlank(s[i + length])
      invariant i + length <= |s| && WordEnd(s, i + length) == WordEnd(s, i)
    {
      length := length + 1;
    }
  }

  /** The part of the loop that looks at the next word: its length and what follows it. */
  method LookAtWord(s: string, i: nat) returns (length: nat, nl: nat)
    requires i < |s| && !IsBlank(s[i])
    ensures length == |ItemAt(s, i).word| && i + length == WordEnd(s, i) && nl == Code(ItemAt(s, i).after)
  {
    length := WordLength(s, i);
    nl := 1;
    if i + length < |s| && s[i + length] == '\n' {
      nl := 3;
      if i + length + 1 < |s| && s[i + length + 1] == '\n' {
        nl := 4;
      }
    }
  }

  /** The separators and the word. */
  method PrintWord(out: string, text: string, sep: string, word: string) returns (out': string)
    ensures out' == out + (text + sep) + Printed(word)
  {
    var printed := DumpLine(word);
    Glue(out, text, sep, printed);
    out' := out + text + sep + printed;
  }

  /** `wrap_lines` in plain text, printing to a string. For every message, width and indents it
      terminates and prints the greedy layout of the words of the message. */
  method Wrap(message: string, width: int, indent: int, firstIndent: int) returns (out: string)
    ensures out == Text(PlaceAll(Blank, Items(message, 0), width - indent), indent, firstIndent) + "\n"
  {
    var column := width - indent;
    var reminder, nl, sep, curr := column, 0, "", 0;
    out := "";
    ghost var page, rest := Blank, Items(message, 0);
    ghost var target := PlaceAll(Blank, rest, column);
    while true
      invariant curr <= |message| && rest == Items(message, curr)
      invariant PlaceAll(page, rest, column) == target
      invariant State(page, rest, nl, reminder, column) && (nl != 0 ==> sep == " ")
      invariant out == Text(page, indent, firstIndent)
      decreases |message| - curr, if nl == 1 then 1 else 0
    {
      curr := SkipBlanks(message, curr);
      if curr == |message| {
        break;
      }
      out, curr, reminder, nl, page, rest :=
        NextWord(message, curr, out, reminder, nl, sep, column, indent, firstIndent, page, rest);
      sep := " ";
    }
    assert rest == [];
    out := out + "\n";
  }

  /** The rest of the loop body: the word at `curr` is printed, or a line break is requested for it. */
  method NextWord(message: string, curr: nat, out: string, reminder: int, nl: nat, sep: string, column: int,
                  indent: int, firstIndent: int, ghost page: Page, ghost rest: seq<Item>)
    returns (out': string, curr': nat, reminder': int, nl': nat, ghost page': Page, ghost rest': seq<Item>)
    requires curr < |message| && !IsBlank(message[curr]) && rest == Items(message, curr)
    requires State(page, rest, nl, reminder, column) && (nl != 0 ==> sep == " ")
    requires out == Text(page, indent, firstIndent)
    ensures curr' <= |message| && rest' == Items(message, curr')
    ensures PlaceAll(page', rest', column) == PlaceAll(page, rest, column)
    ensures State(page', rest', nl', reminder', column) && nl' != 0
    ensures out' == Text(page', indent, firstIndent)
    ensures curr < curr' || (curr == curr' && nl == 1 && nl' == 2)
  {
    ghost var item, after := ItemAt(message, curr), WordEnd(message, curr);
    ghost var later := Items(message, after);
    assert rest == [item] + later;
    var text, sep', length;
    text, sep', reminder' := Separate(nl, sep, reminder, column, indent, firstIndent);
    length, nl' := LookAtWord(message, curr);
    if length < reminder' || reminder' == column {
      out' := PrintWord(out, text, sep', message[curr..curr + length]);
      curr' := curr + length;
      reminder' := reminder' - (length + |sep'|);
      WordPlaced(page, item, later, nl, reminder, column, indent, firstIndent);
      page', rest' := Place(page, item, column), later;
      assert curr' == after && message[curr..curr + length] == item.word;
    } else {
      out', curr', page', rest' := out + text, curr, page, rest;
      assert out' == out;
      nl' := 2;
    }
  }

  /** What the loop needs to know after it printed a word. */
  lemma WordPlaced(page: Page, item: Item, later: seq<Item>, nl: nat, reminder: int,
                   column: int, indent: int, firstIndent: int)
    requires State(page, [item] + later, nl, reminder, column)
    requires item.word != [] && (nl == 1 ==> |item.word| < reminder)
    ensures State(Place(page, item, column), later, Code(item.after),
                  if nl == 1 then reminder - |item.word| - 1 else column - |item.word|, column)
    ensures Text(Place(page, item, column), indent, firstIndent)
            == Text(page, indent, firstIndent) + Lead(nl, indent, firstIndent) + Printed(item.word)
    ensures PlaceAll(page, [item] + later, column) == PlaceAll(Place(page, item, column), later, column)
  {
    PlaceText(page, item, column, indent, firstIndent);
    assert ([item] + later)[1..] == later;
  }
}
