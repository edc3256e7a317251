/**
  What the tokens of a set of options are, in terms of the characters that separate them: any text that is
  put together from words and separators is taken apart into those words again.
*/
module TokenLaws {
  import opened CText
  import opened ConfigBitset

  // ------------------------------------------------------------------ texts of words and separators

  predicate Separator(c: char)
  {
    c == ' ' || c == ',' || c == ':' || c == ';'
  }

  /** Tabulators, line feeds, form feeds and carriage returns, by their codes. */
  predicate Blank(c: char)
  {
    9 <= c as int <= 13
  }

  ghost predicate AllSeparators(s: string)
  {
    forall k :: 0 <= k < |s| ==> Separator(s[k])
  }

  ghost predicate AllBlank(s: string)
  {
    forall k :: 0 <= k < |s| ==> Blank(s[k])
  }

  ghost predicate NoSeparator(s: string)
  {
    forall k :: 0 <= k < |s| ==> !Separator(s[k])
  }

  /** A word, the white space around it that does not separate, and the separators in front of it. The word
      may be missing. */
  datatype Item = Item(gap: string, lead: string, core: string, trail: string)

  function Word(item: Item): string
  {
    item.lead + item.core + item.trail
  }

  ghost predicate ValidItem(item: Item)
  {
    && AllSeparators(item.gap) && AllBlank(item.lead) && AllBlank(item.trail)
    && NoSeparator(item.core) && CString(item.core)
    && (item.core != [] ==> !Blank(item.core[0]) && !Blank(item.core[|item.core| - 1]))
    && Word(item) != []
  }

  /** There is a separator between any two items; at either end there need not be one. */
  ghost predicate ValidText(items: seq<Item>, end: string)
  {
    && AllSeparators(end)
    && (forall k :: 0 <= k < |items| ==> ValidItem(items[k]))
    && (forall k :: 0 < k < |items| ==> items[k].gap != [])
  }

  function Text(items: seq<Item>, end: string): string
  {
    if items == [] then end else items[0].gap + (Word(items[0]) + Text(items[1..], end))
  }

  function Cores(items: seq<Item>): seq<string>
  {
    if items == [] then [] else AfterEntry(items[0].core, Cores(items[1..]))
  }

  // ------------------------------------------------------------------ taking a text apart

  lemma SpaceIsBlank(c: char)
    ensures IsSpace(c) <==> c == ' ' || Blank(c)
  {
  }

  lemma {:induction false} SkipGap(s: string, i: nat, t: nat)
    requires i <= t <= |s| && AllSeparators(s[i..t]) && (t < |s| ==> !Separator(s[t]))
    ensures TokenStart(s, i) == t
    decreases t - i
  {
    if i < t {
      assert s[i..t][0] == s[i];
      assert s[i + 1..t] == s[i..t][1..];
      SkipGap(s, i + 1, t);
    }
  }

  lemma {:induction false} TrimEndOf(core: string, trail: string)
    requires AllBlank(trail) && core != [] && !IsSpace(core[|core| - 1])
    ensures TrimEnd(core + trail) == |core|
  {
    var s := core + trail;
    if trail != [] {
      SpaceIsBlank(trail[|trail| - 1]);
      assert s[..|s| - 1] == core + trail[..|trail| - 1];
      TrimEndOf(core, trail[..|trail| - 1]);
    }
  }

  lemma BlankIsSpace(s: string)
    requires AllBlank(s)
    ensures AllSpace(s)
  {
  }

  lemma TrimItem(item: Item)
    requires ValidItem(item)
    ensures Trim(Word(item)) == item.core
  {
    var s, n := Word(item), |item.lead|;
    BlankIsSpace(item.lead);
    if item.core == [] {
      assert AllBlank(s);
      BlankIsSpace(s);
      assert s[0..|s|] == s;
      SpaceEndAt(s, 0, |s|);
    } else {
      SpaceIsBlank(item.core[0]);
      SpaceIsBlank(item.core[|item.core| - 1]);
      assert s[0..n] == item.lead && s[n] == item.core[0];
      SpaceEndAt(s, 0, n);
      assert s[n..] == item.core + item.trail;
      TrimEndOf(item.core, item.trail);
      assert (item.core + item.trail)[..|item.core|] == item.core;
    }
  }

  /** Where the pieces of a text lie. */
  lemma ItemLies(s: string, i: nat, item: Item, rest: string, t: nat, e: nat)
    requires i <= |s| && s[i..] == item.gap + (Word(item) + rest) && Word(item) != []
    requires t == i + |item.gap| && e == t + |Word(item)|
    ensures i <= t < e <= |s| && |s| - e == |rest|
    ensures s[i..t] == item.gap && s[t..e] == Word(item) && s[e..] == rest
    ensures s[t] == Word(item)[0] && (rest != [] ==> s[e] == rest[0])
  {
    assert s[i..t] == s[i..][..|item.gap|] == item.gap;
    assert s[t..] == s[i..][|item.gap|..] == Word(item) + rest;
    assert s[t..e] == s[t..][..|Word(item)|] == Word(item);
    assert s[e..] == s[t..][|Word(item)|..] == rest;
    assert s[t] == s[t..][0];
    assert rest != [] ==> s[e] == s[e..][0];
  }

  /** The first item of a text is its first token, and the search goes on behind the separator that ends it. */
  lemma FirstItem(s: string, i: nat, item: Item, rest: string)
    requires i <= |s| && ValidItem(item) && s[i..] == item.gap + (Word(item) + rest)
    requires rest != [] ==> Separator(rest[0])
    ensures TokenStart(s, i) < |s| && EntryAt(s, i) == item.core
    ensures SaveAt(s, i) == (if rest == [] then |s| else |s| - |rest| + 1)
  {
    var t := i + |item.gap|;
    var e := t + |Word(item)|;
    ItemLies(s, i, item, rest, t, e);
    WordIsToken(item);
    SkipGap(s, i, t);
    WordEnds(s, t, e);
    TrimItem(item);
  }

  lemma WordEnds(s: string, t: nat, e: nat)
    requires t <= e <= |s| && (e < |s| ==> Separator(s[e]))
    requires forall k :: 0 <= k < e - t ==> !Separator(s[t..e][k]) && s[t..e][k] != '\0'
    ensures TokenEnd(s, t) == e
  {
    forall k | t <= k < e
      ensures !Separator(s[k]) && s[k] != '\0'
    {
      assert s[k] == s[t..e][k - t];
    }
    TokenEndAt(s, t, e);
  }

  lemma WordIsToken(item: Item)
    requires ValidItem(item)
    ensures forall k :: 0 <= k < |Word(item)| ==> !Separator(Word(item)[k]) && Word(item)[k] != '\0'
  {
  }

  /** The text behind the first separator is again such a text, with the same words. */
  lemma WithoutFirst(items: seq<Item>, end: string) returns (items': seq<Item>, end': string)
    requires ValidText(items, end) && Text(items, end) != []
    requires items != [] ==> items[0].gap != []
    ensures Separator(Text(items, end)[0]) && ValidText(items', end') && |items'| == |items|
    ensures Text(items', end') == Text(items, end)[1..] && Cores(items') == Cores(items)
  {
    items', end' := items, end;
    if items == [] {
      end' := end[1..];
    } else {
      var item := items[0];
      items' := [item.(gap := item.gap[1..])] + items[1..];
      assert items'[1..] == items[1..];
      assert forall k :: 0 < k < |items| ==> items'[k] == items[k];
    }
  }

  /** The tokens of a text are its words, whatever separators stand between, before and behind them. */
  lemma {:induction false} TokensOfText(s: string, i: nat, items: seq<Item>, end: string)
    requires i <= |s| && ValidText(items, end) && s[i..] == Text(items, end)
    ensures Tokens(s, i) == Cores(items)
    decreases |items|, |s| - i
  {
    if items == [] {
      assert s[i..|s|] == s[i..];
      SkipGap(s, i, |s|);
    } else {
      var item, rest := items[0], Text(items[1..], end);
      assert ValidText(items[1..], end) by {
        assert forall k :: 0 <= k < |items[1..]| ==> items[1..][k] == items[k + 1];
      }
      if rest == [] {
        FirstItem(s, i, item, rest);
        NoMoreItems(items[1..], end);
        assert Tokens(s, |s|) == [];
      } else {
        assert items[1..] != [] ==> items[1..][0].gap != [];
        var items', end' := WithoutFirst(items[1..], end);
        FirstItem(s, i, item, rest);
        var save := SaveAt(s, i);
        assert s[save..] == s[i..][save - i..] == rest[1..];
        TokensOfText(s, save, items', end');
      }
    }
  }

  lemma NoMoreItems(items: seq<Item>, end: string)
    requires ValidText(items, end) && Text(items, end) == []
    ensures items == []
  {
  }

  // ------------------------------------------------------------------ what tokens look like

  ghost predicate IsToken(token: string)
  {
    token != [] && NoSeparator(token) && !Blank(token[0]) && !Blank(token[|token| - 1])
  }

  lemma TrimmedIsToken(s: string)
    requires NoSeparator(s) && Trim(s) != []
    ensures IsToken(Trim(s))
  {
    var start := SpaceEnd(s, 0);
    var tail := s[start..];
    var n := TrimEnd(tail);
    assert Trim(s) == tail[..n];
    SpaceIsBlank(tail[0]);
    SpaceIsBlank(tail[n - 1]);
    assert forall k :: 0 <= k < n ==> tail[..n][k] == s[start + k];
  }

  lemma {:induction false} TokenClean(s: string, i: nat)
    requires i <= |s|
    ensures NoSeparator(s[i..TokenEnd(s, i)])
    decreases |s| - i
  {
    var e := TokenEnd(s, i);
    if i < e {
      TokenClean(s, i + 1);
      assert s[i..e] == [s[i]] + s[i + 1..e];
    }
  }

  /** Of any value: no token is empty, contains a separator, or begins or ends with white space. */
  lemma {:induction false} TokensClean(s: string, i: nat)
    requires i <= |s|
    ensures forall k :: 0 <= k < |Tokens(s, i)| ==> IsToken(Tokens(s, i)[k])
    decreases |s| - i
  {
    var t := TokenStart(s, i);
    if t < |s| {
      TokensClean(s, SaveAt(s, i));
      TokenClean(s, t);
      if EntryAt(s, i) != [] {
        TrimmedIsToken(s[t..TokenEnd(s, t)]);
      }
    }
  }

  // ------------------------------------------------------------------ what a token does

  /** A token that does not start with a tilde adds the bits of the first entry of that name. */
  lemma PlainTokenAdds(tokens: seq<string>, entries: seq<Entry>, name: string)
    requires Effect(tokens, entries).success && (name != [] ==> name[0] != '~')
    ensures var m, mask := FirstMatch(name, entries, 0), Effect(tokens, entries).mask;
            Effect(tokens + [name], entries) ==
            if m == |entries| then Outcome(false, mask) else Outcome(true, mask + entries[m].value)
  {
    assert (tokens + [name])[..|tokens|] == tokens;
  }

  /** With a tilde in front it removes them. */
  lemma TildeTokenRemoves(tokens: seq<string>, entries: seq<Entry>, name: string)
    requires Effect(tokens, entries).success
    ensures var m, mask := FirstMatch(name, entries, 0), Effect(tokens, entries).mask;
            Effect(tokens + ["~" + name], entries) ==
            if m == |entries| then Outcome(false, mask) else Outcome(true, mask - entries[m].value)
  {
    assert (tokens + ["~" + name])[..|tokens|] == tokens;
    assert ("~" + name)[1..] == name;
  }

  /** The empty set is called none or no, in upper or lower case. */
  lemma NoneIsEmpty(value: string)
    ensures SaysNone(value) <==>
            && (|value| == 2 || |value| == 4)
            && (value[0] == 'n' || value[0] == 'N') && (value[1] == 'o' || value[1] == 'O')
            && (|value| == 4 ==> (value[2] == 'n' || value[2] == 'N') && (value[3] == 'e' || value[3] == 'E'))
  {
    var none, no := "none", "no";
    assert none[0] == no[0] == 'n' && none[1] == no[1] == 'o' && none[2] == 'n' && none[3] == 'e';
  }

  // ------------------------------------------------------------------ names between slashes

  /** Names from the j-th on with slashes between them. */
  function Slashed(aliases: seq<string>, j: nat): string
    requires j < |aliases|
    decreases |aliases| - j
  {
    if j + 1 == |aliases| then aliases[j] else aliases[j] + ("/" + Slashed(aliases, j + 1))
  }

  ghost predicate NoSlash(s: string)
  {
    forall k :: 0 <= k < |s| ==> s[k] != '/'
  }

  lemma {:induction false} AliasEndAt(name: string, i: nat, e: nat)
    requires i <= e <= |name| && NoSlash(name[i..e]) && (e < |name| ==> name[e] == '/')
    ensures AliasEnd(name, i) == e
    decreases e - i
  {
    if i < e {
      assert name[i] == name[i..e][0];
      assert name[i + 1..e] == name[i..e][1..];
      AliasEndAt(name, i + 1, e);
    }
  }

  ghost predicate EqualsOne(text: string, aliases: seq<string>)
  {
    exists k :: 0 <= k < |aliases| && EqualIcase(text, aliases[k])
  }

  /** The same from the j-th name on, one name at a time. */
  ghost predicate EqualsFrom(text: string, aliases: seq<string>, j: nat)
    requires j <= |aliases|
    decreases |aliases| - j
  {
    j < |aliases| && (EqualIcase(text, aliases[j]) || EqualsFrom(text, aliases, j + 1))
  }

  lemma {:induction false} EqualsFromMeans(text: string, aliases: seq<string>, j: nat)
    requires j <= |aliases|
    ensures EqualsFrom(text, aliases, j) <==> exists k :: j <= k < |aliases| && EqualIcase(text, aliases[k])
    decreases |aliases| - j
  {
    if j < |aliases| {
      EqualsFromMeans(text, aliases, j + 1);
    }
  }

  /** A text is one of the names between the slashes if and only if it equals one, whatever the case. */
  lemma NamedBySlashed(text: string, aliases: seq<string>)
    requires aliases != [] && forall k :: 0 <= k < |aliases| ==> NoSlash(aliases[k])
    ensures Named(text, Slashed(aliases, 0), 0) <==> EqualsOne(text, aliases)
  {
    var name := Slashed(aliases, 0);
    assert name[0..] == name;
    NamedFrom(text, aliases, 0, name, 0);
    EqualsFromMeans(text, aliases, 0);
  }

  lemma {:induction false} NamedFrom(text: string, aliases: seq<string>, j: nat, name: string, i: nat)
    requires j < |aliases| && forall k :: 0 <= k < |aliases| ==> NoSlash(aliases[k])
    requires i <= |name| && name[i..] == Slashed(aliases, j)
    ensures Named(text, name, i) <==> EqualsFrom(text, aliases, j)
    decreases |aliases| - j
  {
    var e := i + |aliases[j]|;
    FirstSlashed(aliases, j, name, i, e);
    if j + 1 < |aliases| {
      assert name[e + 1..] == Slashed(aliases, j + 1);
      NamedFrom(text, aliases, j + 1, name, e + 1);
      NamedStep(text, aliases, j, name, i, e);
    } else {
      NamedStep(text, aliases, j, name, i, e);
    }
  }

  lemma NamedStep(text: string, aliases: seq<string>, j: nat, name: string, i: nat, e: nat)
    requires j < |aliases| && i <= |name| && e == AliasEnd(name, i) && name[i..e] == aliases[j]
    requires j + 1 == |aliases| <==> e == |name|
    requires j + 1 < |aliases| ==> (Named(text, name, e + 1) <==> EqualsFrom(text, aliases, j + 1))
    ensures Named(text, name, i) <==> EqualsFrom(text, aliases, j)
  {
  }

  lemma FirstSlashed(aliases: seq<string>, j: nat, name: string, i: nat, e: nat)
    requires j < |aliases| && NoSlash(aliases[j]) && i <= |name| && name[i..] == Slashed(aliases, j)
    requires e == i + |aliases[j]|
    ensures AliasEnd(name, i) == e && name[i..e] == aliases[j]
    ensures j + 1 == |aliases| <==> e == |name|
    ensures j + 1 < |aliases| ==> name[e + 1..] == Slashed(aliases, j + 1)
  {
    var first := aliases[j];
    assert name[i..e] == name[i..][..|first|] == first;
    if j + 1 < |aliases| {
      assert name[e] == name[i..][|first|] == '/';
      assert name[e + 1..] == name[i..][|first| + 1..] == Slashed(aliases, j + 1);
    }
    AliasEndAt(name, i, e);
  }
}
