/**
  What the word wrapping prints, in terms of the characters of the message.
*/
module WrapLaws {
  import opened WrapLines

  // ------------------------------------------------------------------ nothing is lost or added

  /** Spaces, tabulators, newlines, carriage returns, vertical tabulators and non-breaking spaces, by code. */
  predicate White(c: char)
  {
    c as int in {9, 10, 11, 13, 32, 160}
  }

  function Visible(s: string): string
  {
    if s == [] then []
    else Visible(s[..|s| - 1]) + (if White(s[|s| - 1]) then [] else [s[|s| - 1]])
  }

  lemma {:induction false} VisibleAppend(a: string, b: string)
    ensures Visible(a + b) == Visible(a) + Visible(b)
  {
    if b == [] {
      assert a + b == a;
    } else {
      var front, last := b[..|b| - 1], b[|b| - 1];
      assert (a + b)[..|a + b| - 1] == a + front;
      VisibleAppend(a, front);
    }
  }

  lemma {:induction false} VisibleWhite(s: string)
    requires forall k :: 0 <= k < |s| ==> White(s[k])
    ensures Visible(s) == []
  {
    if s != [] {
      VisibleWhite(s[..|s| - 1]);
    }
  }

  lemma {:induction false} VisiblePrinted(word: string)
    ensures Visible(Printed(word)) == Visible(word)
  {
    if word != [] {
      var front := word[..|word| - 1];
      assert Printed(word)[..|word| - 1] == Printed(front);
      VisiblePrinted(front);
    }
  }

  function VisibleWords(items: seq<Item>): string
  {
    if items == [] then [] else VisibleWords(items[..|items| - 1]) + Visible(items[|items| - 1].word)
  }

  lemma {:induction false} VisibleWordsAppend(a: seq<Item>, b: seq<Item>)
    ensures VisibleWords(a + b) == VisibleWords(a) + VisibleWords(b)
  {
    if b == [] {
      assert a + b == a;
    } else {
      var front, last := b[..|b| - 1], b[|b| - 1];
      assert (a + b)[..|a + b| - 1] == a + front;
      VisibleWordsAppend(a, front);
    }
  }

  lemma {:induction false} VisibleLine(line: Line)
    ensures Visible(LineText(line)) == VisibleWords(LineWords(line))
  {
    match line
    case First(item) =>
      VisiblePrinted(item.word);
      assert LineWords(line)[..0] == [];
    case Longer(before, item) =>
      VisibleLine(before);
      VisiblePrinted(item.word);
      VisibleWhite(" ");
      VisibleAppend(LineText(before), " ");
      VisibleAppend(LineText(before) + " ", Printed(item.word));
      assert LineWords(line)[..|LineWords(line)| - 1] == LineWords(before);
  }

  lemma VisibleFront(above: Page, indent: int, firstIndent: int)
    ensures Visible(Front(above, indent, firstIndent)) == Visible(Text(above, indent, firstIndent))
  {
    match above
    case Blank => VisibleWhite(Start(indent, firstIndent));
    case Lines(_, last) =>
      VisibleWhite(LineBreak(last.item.after, indent));
      VisibleAppend(Text(above, indent, firstIndent), LineBreak(last.item.after, indent));
  }

  lemma {:induction false} VisibleText(page: Page, indent: int, firstIndent: int)
    ensures Visible(Text(page, indent, firstIndent)) == VisibleWords(Words(page))
  {
    match page
    case Blank =>
    case Lines(above, last) =>
      VisibleText(above, indent, firstIndent);
      VisibleFront(above, indent, firstIndent);
      VisibleLine(last);
      VisibleAppend(Front(above, indent, firstIndent), LineText(last));
      VisibleWordsAppend(Words(above), LineWords(last));
  }

  lemma {:induction false} BlanksAreWhite(s: string, i: nat)
    requires i <= |s|
    ensures forall k :: i <= k < BlankEnd(s, i) ==> White(s[k])
    decreases |s| - i
  {
    if i < |s| && IsBlank(s[i]) {
      BlanksAreWhite(s, i + 1);
    }
  }

  lemma VisibleCut(s: string, i: nat, j: nat)
    requires i <= j <= |s|
    ensures Visible(s[i..]) == Visible(s[i..j]) + Visible(s[j..])
  {
    assert s[i..] == s[i..j] + s[j..];
    VisibleAppend(s[i..j], s[j..]);
  }

  lemma BlanksInvisible(s: string, i: nat)
    requires i <= |s|
    ensures Visible(s[i..]) == Visible(s[BlankEnd(s, i)..])
  {
    BlanksAreWhite(s, i);
    VisibleCut(s, i, BlankEnd(s, i));
    VisibleWhite(s[i..BlankEnd(s, i)]);
  }

  lemma VisibleFirst(item: Item, rest: seq<Item>)
    ensures VisibleWords([item] + rest) == Visible(item.word) + VisibleWords(rest)
  {
    VisibleWordsAppend([item], rest);
    assert [item][..0] == [];
    assert VisibleWords([item]) == Visible(item.word);
  }

  lemma {:induction false} VisibleItems(s: string, i: nat)
    requires i <= |s|
    ensures VisibleWords(Items(s, i)) == Visible(s[i..])
    decreases |s| - i
  {
    var start := BlankEnd(s, i);
    BlanksInvisible(s, i);
    if start < |s| {
      var end := WordEnd(s, start);
      VisibleItems(s, end);
      VisibleCut(s, start, end);
      VisibleFirst(ItemAt(s, start), Items(s, end));
    } else {
      assert s[start..] == [];
    }
  }

  lemma VisiblePage(page: Page, indent: int, firstIndent: int)
    ensures Visible(Text(page, indent, firstIndent) + "\n") == VisibleWords(Words(page))
  {
    VisibleText(page, indent, firstIndent);
    VisibleWhite("\n");
    VisibleAppend(Text(page, indent, firstIndent), "\n");
  }

  /** Of any message all characters that are not white are printed, in order, and no others. */
  lemma PrintsAll(message: string, column: int, indent: int, firstIndent: int)
    ensures Visible(Text(PlaceAll(Blank, Items(message, 0), column), indent, firstIndent) + "\n") == Visible(message)
  {
    PlaceAllIsLayout(Blank, Items(message, 0), column);
    VisiblePage(PlaceAll(Blank, Items(message, 0), column), indent, firstIndent);
    VisibleItems(message, 0);
    assert message[0..] == message;
    assert Words(Blank) + Items(message, 0) == Items(message, 0);
  }

  /** No non-breaking space is printed; there is a space in its place. */
  lemma {:induction false} NoHardSpaces(page: Page, indent: int, firstIndent: int)
    ensures forall k :: 0 <= k < |Text(page, indent, firstIndent)| ==> Text(page, indent, firstIndent)[k] as int != 160
    decreases page, 0
  {
    match page
    case Blank =>
    case Lines(above, last) =>
      if above.Lines? {
        NoHardSpaces(above, indent, firstIndent);
      }
      SoftLine(last);
      assert Text(page, indent, firstIndent) == Front(above, indent, firstIndent) + LineText(last);
  }

  lemma {:induction false} SoftLine(line: Line)
    ensures forall k :: 0 <= k < |LineText(line)| ==> LineText(line)[k] as int != 160
  {
    match line
    case First(_) =>
    case Longer(before, _) => SoftLine(before);
  }

  lemma PrintedCharacter(word: string, k: nat)
    requires k < |word|
    ensures Printed(word)[k] as int == if word[k] as int == 160 then 32 else word[k] as int
  {
  }

  // ------------------------------------------------------------------ what is printed between two words

  /** A word: no white space of the five kinds that separate words. */
  ghost predicate Solid(word: string)
  {
    word != [] && forall k :: 0 <= k < |word| ==> word[k] as int !in {9, 10, 11, 13, 32}
  }

  ghost predicate Gap(s: string)
  {
    s != [] && forall k :: 0 <= k < |s| ==> s[k] as int in {9, 10, 11, 13, 32}
  }

  /** Two newlines directly behind a word leave an empty line, one begins a new line; otherwise the next word
      stays on the line if both fit the column with one space between them. New lines are indented. */
  function Between(a: string, gap: string, b: string, column: int, indent: int): string
  {
    if |gap| >= 2 && gap[0] == '\n' && gap[1] == '\n' then "\n\n" + Spaces(indent)
    else if |gap| >= 1 && gap[0] == '\n' then "\n" + Spaces(indent)
    else if |a| + 1 + |b| <= column then " "
    else "\n" + Spaces(indent)
  }

  lemma {:induction false} BlankEndAt(s: string, i: nat, e: nat)
    requires i <= e <= |s| && (e < |s| ==> !IsBlank(s[e])) && forall k :: i <= k < e ==> IsBlank(s[k])
    ensures BlankEnd(s, i) == e
    decreases e - i
  {
    if i < e {
      BlankEndAt(s, i + 1, e);
    }
  }

  lemma {:induction false} WordEndAt(s: string, i: nat, e: nat)
    requires i <= e <= |s| && (e < |s| ==> IsBlank(s[e])) && forall k :: i <= k < e ==> !IsBlank(s[k])
    ensures WordEnd(s, i) == e
    decreases e - i
  {
    if i < e {
      WordEndAt(s, i + 1, e);
    }
  }

  lemma BlankByCode(c: char)
    ensures IsBlank(c) <==> c as int in {9, 10, 11, 13, 32}
  {
  }

  lemma TwoItems(a: string, gap: string, b: string)
    requires Solid(a) && Gap(gap) && Solid(b)
    ensures Items(a + gap + b, 0) == [Item(a, AfterWord(gap, 0)), Item(b, Space)]
  {
    var s, n, m := a + gap + b, |a|, |a| + |gap|;
    forall k | 0 <= k < |s|
      ensures IsBlank(s[k]) <==> n <= k < m
    {
      BlankByCode(s[k]);
      assert s[k] == if k < n then a[k] else if k < m then gap[k - n] else b[k - m];
    }
    BlankEndAt(s, 0, 0);
    WordEndAt(s, 0, n);
    BlankEndAt(s, n, m);
    WordEndAt(s, m, |s|);
    BlankEndAt(s, |s|, |s|);
    assert s[0..n] == a && s[m..|s|] == b;
    assert AfterWord(s, n) == AfterWord(gap, 0);
    assert Items(s, |s|) == [];
    assert Items(s, n) == [Item(b, Space)];
  }

  lemma TwoPlaced(x: Item, y: Item, column: int)
    ensures PlaceAll(Blank, [x, y], column) ==
            if x.after == Space && |x.word| + 1 + |y.word| <= column
            then Lines(Blank, Longer(First(x), y)) else Lines(Lines(Blank, First(x)), First(y))
  {
    assert [x, y][1..] == [y] && [y][1..] == [];
    assert PlaceAll(Blank, [x, y], column) == PlaceAll(Place(Blank, x, column), [y], column);
  }

  lemma SpacesAre(n: int)
    ensures |Spaces(n)| == (if n < 0 then -n else n) && forall k :: 0 <= k < |Spaces(n)| ==> Spaces(n)[k] == ' '
  {
  }

  lemma TwoLines(x: Item, y: Item, indent: int, firstIndent: int)
    ensures Text(Lines(Lines(Blank, First(x)), First(y)), indent, firstIndent) ==
            Start(indent, firstIndent) + Printed(x.word) + LineBreak(x.after, indent) + Printed(y.word)
    ensures Text(Lines(Blank, Longer(First(x), y)), indent, firstIndent) ==
            Start(indent, firstIndent) + Printed(x.word) + " " + Printed(y.word)
  {
    Glue(Start(indent, firstIndent), Printed(x.word), " ", Printed(y.word));
    assert Text(Lines(Blank, First(x)), indent, firstIndent) == Start(indent, firstIndent) + Printed(x.word);
  }

  /** What is printed for any message of two words, whatever stands between them. */
  lemma TwoWords(a: string, gap: string, b: string, column: int, indent: int, firstIndent: int)
    requires Solid(a) && Gap(gap) && Solid(b)
    ensures Text(PlaceAll(Blank, Items(a + gap + b, 0), column), indent, firstIndent) ==
            (if firstIndent <= 0 then "\n" + Spaces(indent) else Spaces(firstIndent))
            + Printed(a) + Between(a, gap, b, column, indent) + Printed(b)
  {
    var x, y := Item(a, AfterWord(gap, 0)), Item(b, Space);
    TwoItems(a, gap, b);
    TwoPlaced(x, y, column);
    TwoLines(x, y, indent, firstIndent);
  }
}
