/**
  Sets of options in configuration values: `parse_bitset` and `dump_bitset` of SCOREP_Config.c.
*/
module ConfigBitset {
  import opened CText
  import Shell = ShellQuote

  /** A 64-bit word as the set of its bits. The code combines masks with and, or and complement only,
      which act on every bit by itself: `|=` is a union and `&= ~` a difference. */
  type Mask = set<nat>

  /** An entry of the table of accepted values: names separated by slashes, and the bits they mean. */
  datatype Entry = Entry(name: string, value: Mask)

  // ------------------------------------------------------------------ names

  ghost predicate EqualIcase(a: string, b: string)
  {
    |a| == |b| && forall i :: 0 <= i < |a| ==> ToUpper(a[i]) == ToUpper(b[i])
  }

  /** `equal_icase_stringn`, which compares from the end; the second string starts at `from`. */
  method EqualIcaseN(a: string, b: string, from: nat, length: nat) returns (equal: bool)
    requires length == |a| && from + length <= |b|
    ensures equal <==> EqualIcase(a, b[from..from + length])
  {
    ghost var piece := b[from..from + length];
    var n := length;
    while n > 0
      invariant 0 <= n <= length
      invariant forall i :: n <= i < length ==> ToUpper(a[i]) == ToUpper(piece[i])
    {
      n := n - 1;
      assert piece[n] == b[from + n];
      if ToUpper(a[n]) != ToUpper(b[from + n]) {
        return false;
      }
    }
    return true;
  }

  method EqualIcaseString(a: string, b: string) returns (equal: bool)
    ensures equal <==> EqualIcase(a, b)
  {
    if |a| != |b| {
      return false;
    }
    equal := EqualIcaseN(a, b, 0, |a|);
    assert b[0..|b|] == b;
  }

  /** The next slash at or behind i, or the end. */
  function AliasEnd(name: string, i: nat): (e: nat)
    requires i <= |name|
    ensures i <= e <= |name|
    ensures e < |name| ==> name[e] == '/'
    ensures forall k :: i <= k < e ==> name[k] != '/'
    decreases |name| - i
  {
    if i < |name| && name[i] != '/' then AliasEnd(name, i + 1) else i
  }

  /** One of the aliases from i on is the given text. */
  ghost predicate Named(text: string, name: string, i: nat)
    requires i <= |name|
    decreases |name| - i
  {
    var e := AliasEnd(name, i);
    EqualIcase(text, name[i..e]) || (e < |name| && Named(text, name, e + 1))
  }

  method StrChr(name: string, i: nat) returns (e: nat)
    requires i <= |name|
    ensures e == AliasEnd(name, i)
  {
    e := i;
    while e < |name| && name[e] != '/'
      invariant i <= e <= |name| && AliasEnd(name, e) == AliasEnd(name, i)
    {
      e := e + 1;
    }
  }

  /** One alias against the text: the lengths, then the characters. */
  method AliasEquals(text: string, aliases: string, curr: nat, next: nat) returns (equal: bool)
    requires curr <= next <= |aliases|
    ensures equal <==> EqualIcase(text, aliases[curr..next])
  {
    if |text| != next - curr {
      return false;
    }
    equal := EqualIcaseN(text, aliases, curr, next - curr);
    assert curr + (next - curr) == next;
  }

  /** `string_in_alias_list`. */
  method StringInAliasList(text: string, aliases: string) returns (found: bool)
    ensures found <==> Named(text, aliases, 0)
  {
    var curr := 0;
    var next := StrChr(aliases, curr);
    while true
      invariant curr <= next <= |aliases| && next == AliasEnd(aliases, curr)
      invariant Named(text, aliases, curr) <==> Named(text, aliases, 0)
      decreases |aliases| - curr
    {
      var equal := AliasEquals(text, aliases, curr, next);
      if equal {
        return true;
      }
      if next == |aliases| {
        return false;
      }
      curr := next + 1;
      next := StrChr(aliases, curr);
    }
  }

  /** The first entry that has the text among its names; behind the last one if there is none. */
  ghost function FirstMatch(text: string, entries: seq<Entry>, i: nat): (m: nat)
    requires i <= |entries|
    ensures i <= m <= |entries|
    decreases |entries| - i
  {
    if i < |entries| && !Named(text, entries[i].name, 0) then FirstMatch(text, entries, i + 1) else i
  }

  lemma {:induction false} FirstMatchIsFirst(text: string, entries: seq<Entry>, i: nat)
    requires i <= |entries|
    ensures var m := FirstMatch(text, entries, i);
            && (m < |entries| ==> Named(text, entries[m].name, 0))
            && (forall k :: i <= k < m ==> !Named(text, entries[k].name, 0))
    decreases |entries| - i
  {
    if i < |entries| && !Named(text, entries[i].name, 0) {
      FirstMatchIsFirst(text, entries, i + 1);
    }
  }

  /** The search loop of `parse_bitset`. */
  method FindEntry(text: string, entries: seq<Entry>) returns (m: nat)
    ensures m == FirstMatch(text, entries, 0)
    ensures m < |entries| ==> Named(text, entries[m].name, 0)
    ensures forall k :: 0 <= k < m <= |entries| ==> !Named(text, entries[k].name, 0)
  {
    FirstMatchIsFirst(text, entries, 0);
    m := 0;
    while m < |entries|
      invariant m <= |entries| && FirstMatch(text, entries, m) == FirstMatch(text, entries, 0)
    {
      var found := StringInAliasList(text, entries[m].name);
      if found {
        return;
      }
      m := m + 1;
    }
  }

  // ------------------------------------------------------------------ tokens

  predicate IsDelimiter(c: char)
  {
    c in " ,:;"
  }

  /** The start of the next token at or behind i. */
  function TokenStart(s: string, i: nat): (t: nat)
    requires i <= |s|
    ensures i <= t <= |s|
    ensures t < |s| ==> !IsDelimiter(s[t])
    decreases |s| - i
  {
    if i < |s| && IsDelimiter(s[i]) then TokenStart(s, i + 1) else i
  }

  /** The end of the token: a delimiter, a terminator, or the end. */
  function TokenEnd(s: string, i: nat): (e: nat)
    requires i <= |s|
    ensures i <= e <= |s|
    ensures e < |s| ==> IsDelimiter(s[e]) || s[e] == '\0'
    decreases |s| - i
  {
    if i < |s| && !IsDelimiter(s[i]) && s[i] != '\0' then TokenEnd(s, i + 1) else i
  }

  /** Behind the last character that is not white space. */
  function TrimEnd(s: string): (e: nat)
    ensures e <= |s| && (e > 0 ==> !IsSpace(s[e - 1]))
  {
    if s != [] && IsSpace(s[|s| - 1]) then TrimEnd(s[..|s| - 1]) else |s|
  }

  function Trim(s: string): string
  {
    var start := SpaceEnd(s, 0);
    s[start..][..TrimEnd(s[start..])]
  }

  /** The token at or behind i, trimmed, and where the search for the next one starts. */
  function EntryAt(s: string, i: nat): string
    requires i <= |s|
  {
    Trim(s[TokenStart(s, i)..TokenEnd(s, TokenStart(s, i))])
  }

  function SaveAt(s: string, i: nat): (save: nat)
    requires i <= |s|
    ensures i <= save <= |s|
    ensures TokenStart(s, i) < |s| ==> i < save
  {
    var e := TokenEnd(s, TokenStart(s, i));
    if e < |s| then e + 1 else e
  }

  function AfterEntry(entry: string, rest: seq<string>): seq<string>
  {
    if entry == [] then rest else [entry] + rest
  }

  /** All tokens from i on, trimmed, without the blank ones. */
  function Tokens(s: string, i: nat): seq<string>
    requires i <= |s|
    decreases |s| - i
  {
    if TokenStart(s, i) == |s| then [] else AfterEntry(EntryAt(s, i), Tokens(s, SaveAt(s, i)))
  }

  // ------------------------------------------------------------------ what a list of tokens means

  datatype Outcome = Outcome(success: bool, mask: Mask)

  predicate Inverts(token: string)
  {
    token != [] && token[0] == '~'
  }

  /** The name in a token. */
  function Entered(token: string): string
  {
    if Inverts(token) then token[1..] else token
  }

  ghost function Match(token: string, entries: seq<Entry>): nat
  {
    FirstMatch(Entered(token), entries, 0)
  }

  /** The tokens take effect in order; an unknown one ends it. */
  ghost function Effect(tokens: seq<string>, entries: seq<Entry>): Outcome
  {
    if tokens == [] then Outcome(true, {})
    else
      var before, token := Effect(tokens[..|tokens| - 1], entries), tokens[|tokens| - 1];
      var m := Match(token, entries);
      if !before.success then before
      else if m == |entries| then Outcome(false, before.mask)
      else if Inverts(token) then Outcome(true, before.mask - entries[m].value)
      else Outcome(true, before.mask + entries[m].value)
  }

  ghost predicate SaysNone(value: string)
  {
    EqualIcase(value, "none") || EqualIcase(value, "no")
  }

  ghost function Bitset(value: string, entries: seq<Entry>): Outcome
  {
    if SaysNone(value) then Outcome(true, {}) else Effect(Tokens(value, 0), entries)
  }

  /** The entry of a token has the bit. */
  ghost predicate Covers(token: string, entries: seq<Entry>, b: nat)
  {
    Match(token, entries) < |entries| && b in entries[Match(token, entries)].value
  }

  /** Token k has the last word on the bit. */
  ghost predicate LastCovering(tokens: seq<string>, entries: seq<Entry>, b: nat, k: nat)
    requires k < |tokens|
  {
    Covers(tokens[k], entries, b) && forall j :: k < j < |tokens| ==> !Covers(tokens[j], entries, b)
  }

  /** Parsing succeeds exactly if every token names an entry. */
  lemma {:induction false} EffectSucceeds(tokens: seq<string>, entries: seq<Entry>)
    ensures Effect(tokens, entries).success <==>
            forall k :: 0 <= k < |tokens| ==> Match(tokens[k], entries) < |entries|
  {
    if tokens != [] {
      var front, last := tokens[..|tokens| - 1], tokens[|tokens| - 1];
      EffectSucceeds(front, entries);
      assert tokens == front + [last];
      assert forall k :: 0 <= k < |front| ==> front[k] == tokens[k];
    }
  }

  /** On success a bit is set exactly if the last token whose entry has the bit does not invert. */
  lemma {:induction false} LastTokenDecides(tokens: seq<string>, entries: seq<Entry>, b: nat)
    requires Effect(tokens, entries).success
    ensures b in Effect(tokens, entries).mask <==>
            exists k :: 0 <= k < |tokens| && LastCovering(tokens, entries, b, k) && !Inverts(tokens[k])
  {
    if tokens != [] {
      var last := |tokens| - 1;
      var front, token := tokens[..last], tokens[last];
      LastTokenDecides(front, entries, b);
      if Covers(token, entries, b) {
        assert LastCovering(tokens, entries, b, last);
        forall k | 0 <= k < last
          ensures !LastCovering(tokens, entries, b, k)
        {
          assert Covers(tokens[last], entries, b);
        }
      } else {
        forall k | 0 <= k < last
          ensures LastCovering(tokens, entries, b, k) <==> LastCovering(front, entries, b, k)
        {
          LastCoveringSnoc(tokens, entries, b, k);
        }
      }
    }
  }

  lemma LastCoveringSnoc(tokens: seq<string>, entries: seq<Entry>, b: nat, k: nat)
    requires k < |tokens| - 1 && !Covers(tokens[|tokens| - 1], entries, b)
    ensures LastCovering(tokens, entries, b, k) <==> LastCovering(tokens[..|tokens| - 1], entries, b, k)
  {
    var front := tokens[..|tokens| - 1];
    assert forall j :: 0 <= j < |front| ==> front[j] == tokens[j];
  }

  /** The first unknown token ends the parsing: the tokens in front of it have taken effect, and nothing else. */
  lemma {:induction false} UnknownTokenEnds(tokens: seq<string>, entries: seq<Entry>, k: nat)
    requires k < |tokens| && Match(tokens[k], entries) == |entries|
    requires forall j :: 0 <= j < k ==> Match(tokens[j], entries) < |entries|
    ensures Effect(tokens[..k], entries).success
    ensures Effect(tokens, entries) == Outcome(false, Effect(tokens[..k], entries).mask)
    decreases |tokens|
  {
    var last := |tokens| - 1;
    var front := tokens[..last];
    if k < last {
      assert front[..k] == tokens[..k];
      UnknownTokenEnds(front, entries, k);
    } else {
      EffectSucceeds(front, entries);
    }
  }

  // ------------------------------------------------------------------ dump_bitset

  /** The first name of an entry. */
  function FirstAlias(name: string): string
  {
    name[..AliasEnd(name, 0)]
  }

  datatype Dump = Dump(names: seq<string>, rest: Mask)

  /** Which names are printed, and the bits that no printed entry has: every entry whose bits are all
      still there takes them. */
  function Dumped(mask: Mask, entries: seq<Entry>): Dump
  {
    if entries == [] then Dump([], mask)
    else
      var before, entry := Dumped(mask, entries[..|entries| - 1]), entries[|entries| - 1];
      if before.rest * entry.value == entry.value
      then Dump(before.names + [FirstAlias(entry.name)], before.rest - entry.value)
      else before
  }

  function JoinQuoted(names: seq<string>): string
  {
    if names == [] then ""
    else if |names| == 1 then Shell.Quoted(names[0])
    else Shell.Quoted(names[0]) + "," + JoinQuoted(names[1..])
  }

  lemma {:induction false} JoinQuotedSnoc(names: seq<string>, name: string)
    ensures JoinQuoted(names + [name]) ==
            (if names == [] then "" else JoinQuoted(names) + ",") + Shell.Quoted(name)
  {
    var all := names + [name];
    if |names| == 1 {
      assert all[1..] == [name];
      assert JoinQuoted(all) == Shell.Quoted(names[0]) + "," + JoinQuoted([name]);
    } else if |names| > 1 {
      assert all[1..] == names[1..] + [name];
      JoinQuotedSnoc(names[1..], name);
    }
  }

  /** `dump_bitset`, printing to a string. */
  method DumpBitset(name: string, mask: Mask, entries: seq<Entry>) returns (out: string)
    ensures out == name + "=" + JoinQuoted(Dumped(mask, entries).names) + "\n"
  {
    var list, sep, bitmask, i := "", "", mask, 0;
    while i < |entries|
      invariant i <= |entries|
      invariant Dumped(mask, entries[..i]).rest == bitmask
      invariant list == JoinQuoted(Dumped(mask, entries[..i]).names)
      invariant sep == if Dumped(mask, entries[..i]).names == [] then "" else ","
    {
      ghost var names := Dumped(mask, entries[..i]).names;
      assert entries[..i + 1][..i] == entries[..i];
      if bitmask * entries[i].value == entries[i].value {
        var next := StrChr(entries[i].name, 0);
        var quoted := Shell.SingleQuote(entries[i].name[..next]);
        JoinQuotedSnoc(names, FirstAlias(entries[i].name));
        list := list + sep + quoted[..quoted.Length - 1];
        sep := ",";
        bitmask := bitmask - entries[i].value;
      }
      i := i + 1;
    }
    assert entries[..i] == entries;
    out := name + "=" + list + "\n";
  }

  /** Entry n is printed if all its bits are in the mask and no printed entry in front of it has one of them. */
  ghost predicate Prints(mask: Mask, entries: seq<Entry>, n: nat)
    requires n < |entries|
  {
    && entries[n].value <= mask
    && forall i :: 0 <= i < n && Prints(mask, entries, i) ==> entries[i].value !! entries[n].value
  }

  ghost function PrintedNames(mask: Mask, entries: seq<Entry>, n: nat): seq<string>
    requires n <= |entries|
  {
    if n == 0 then []
    else
      PrintedNames(mask, entries, n - 1)
      + if Prints(mask, entries, n - 1) then [FirstAlias(entries[n - 1].name)] else []
  }

  ghost predicate Left(mask: Mask, entries: seq<Entry>, n: nat, b: nat)
    requires n <= |entries|
  {
    b in mask && forall i :: 0 <= i < n && Prints(mask, entries, i) ==> b !in entries[i].value
  }

  lemma {:induction false} DumpedFirst(mask: Mask, entries: seq<Entry>, n: nat)
    requires n <= |entries|
    ensures Dumped(mask, entries[..n]).names == PrintedNames(mask, entries, n)
    ensures forall b :: b in Dumped(mask, entries[..n]).rest <==> Left(mask, entries, n, b)
  {
    if n > 0 {
      DumpedFirst(mask, entries, n - 1);
      assert entries[..n][..n - 1] == entries[..n - 1];
      LeftCovers(mask, entries, n - 1, Dumped(mask, entries[..n - 1]).rest);
    }
  }

  lemma LeftCovers(mask: Mask, entries: seq<Entry>, n: nat, rest: Mask)
    requires n < |entries| && forall b :: b in rest <==> Left(mask, entries, n, b)
    ensures rest * entries[n].value == entries[n].value <==> Prints(mask, entries, n)
  {
    var value := entries[n].value;
    assert rest * value == value <==> value <= rest;
    if Prints(mask, entries, n) {
      forall b | b in value
        ensures b in rest
      {
        assert Left(mask, entries, n, b);
      }
    }
    if value <= rest {
      forall i | 0 <= i < n && Prints(mask, entries, i)
        ensures entries[i].value !! value
      {
        assert forall b :: b in value ==> Left(mask, entries, n, b);
      }
    }
  }

  /** The names that a dump prints, and the bits it leaves over. */
  lemma DumpedAre(mask: Mask, entries: seq<Entry>, b: nat)
    ensures Dumped(mask, entries).names == PrintedNames(mask, entries, |entries|)
    ensures b in Dumped(mask, entries).rest <==> Left(mask, entries, |entries|, b)
  {
    assert entries[..|entries|] == entries;
    DumpedFirst(mask, entries, |entries|);
  }

  // ------------------------------------------------------------------ the round trip

  /** What the shell makes of the printed value. */
  function Join(names: seq<string>): string
  {
    if names == [] then ""
    else if |names| == 1 then names[0]
    else names[0] + "," + Join(names[1..])
  }

  lemma {:induction false} ShellReadsNames(names: seq<string>)
    ensures Shell.Read(JoinQuoted(names), false) == Shell.Word(Join(names))
  {
    if |names| == 1 {
      Shell.QuoteRoundTrip(names[0]);
    } else if |names| > 1 {
      var rest := JoinQuoted(names[1..]);
      assert JoinQuoted(names) == Shell.Quoted(names[0]) + ("," + rest);
      Shell.ReadQuoted(names[0], "," + rest);
      assert ("," + rest)[1..] == rest;
      ShellReadsNames(names[1..]);
      assert names[0] + ([','] + Join(names[1..])) == Join(names);
    }
  }

  /** A name that can stand as a token for itself. */
  predicate Plain(name: string)
  {
    && name != [] && name[0] != '~' && !IsSpace(name[0]) && !IsSpace(name[|name| - 1])
    && forall i :: 0 <= i < |name| ==> !IsDelimiter(name[i]) && name[i] != '\0'
  }

  lemma TrimPlain(name: string)
    requires Plain(name)
    ensures Trim(name) == name
  {
    SpaceEndAt(name, 0, 0);
    assert name[0..] == name;
  }

  lemma TokenAt(s: string, i: nat, name: string, rest: string)
    requires i <= |s| && s[i..] == name + rest && Plain(name) && (rest != [] ==> IsDelimiter(rest[0]))
    ensures TokenStart(s, i) == i < |s| && s[i] != '\0' && TokenEnd(s, i) == i + |name|
    ensures s[i..i + |name|] == name && s[i + |name|..] == rest
  {
    assert s[i] == s[i..][0] == name[0];
    var e := i + |name|;
    assert forall k :: i <= k < e ==> s[k] == s[i..][k - i] == name[k - i];
    assert s[e..] == s[i..][|name|..] == rest;
    assert e < |s| ==> s[e] == s[e..][0] == rest[0];
    TokenEndAt(s, i, e);
  }

  lemma {:induction false} TokenEndAt(s: string, i: nat, e: nat)
    requires i <= e <= |s| && (e < |s| ==> IsDelimiter(s[e]) || s[e] == '\0')
    requires forall k :: i <= k < e ==> !IsDelimiter(s[k]) && s[k] != '\0'
    ensures TokenEnd(s, i) == e
    decreases e - i
  {
    if i < e {
      TokenEndAt(s, i + 1, e);
    }
  }

  lemma FirstToken(s: string, i: nat, name: string, rest: string, next: nat)
    requires i <= |s| && s[i..] == name + rest && Plain(name) && (rest != [] ==> IsDelimiter(rest[0]))
    requires next == if rest == [] then i + |name| else i + |name| + 1
    ensures next <= |s| && EntryAt(s, i) == name && Tokens(s, i) == [name] + Tokens(s, next)
  {
    TokenAt(s, i, name, rest);
    TrimPlain(name);
    assert next == SaveAt(s, i) && name == EntryAt(s, i);
  }

  lemma {:induction false} TokensOfJoin(s: string, i: nat, names: seq<string>)
    requires i <= |s| && s[i..] == Join(names) && forall k :: 0 <= k < |names| ==> Plain(names[k])
    ensures Tokens(s, i) == names
    decreases |names|
  {
    if names == [] {
      assert i == |s|;
    } else {
      var name, tail := names[0], names[1..];
      assert names == [name] + tail;
      if tail == [] {
        FirstToken(s, i, name, "", |s|);
        assert Tokens(s, |s|) == [];
      } else {
        var rest, next := "," + Join(tail), i + |name| + 1;
        assert s[i..] == name + rest;
        FirstToken(s, i, name, rest, next);
        assert s[next..] == s[i..][|name| + 1..] == rest[1..] == Join(tail);
        TokensOfJoin(s, next, tail);
      }
    }
  }

  /** The table lets every entry be named by its first alias: the alias is one token, it is not found in
      an earlier entry with other bits, and it does not mean the empty set. */
  ghost predicate Nameable(entries: seq<Entry>)
  {
    forall i {:trigger NameableEntry(entries, i)} :: 0 <= i < |entries| ==> NameableEntry(entries, i)
  }

  ghost predicate NameableEntry(entries: seq<Entry>, i: nat)
    requires i < |entries|
  {
    var alias := FirstAlias(entries[i].name);
    && Plain(alias) && !SaysNone(alias)
    && FirstMatch(alias, entries, 0) < |entries|
    && entries[FirstMatch(alias, entries, 0)].value == entries[i].value
  }

  lemma EffectSnoc(tokens: seq<string>, entries: seq<Entry>, name: string)
    requires Effect(tokens, entries).success && !Inverts(name) && Match(name, entries) < |entries|
    ensures Effect(tokens + [name], entries) ==
            Outcome(true, Effect(tokens, entries).mask + entries[Match(name, entries)].value)
  {
    assert (tokens + [name])[..|tokens|] == tokens;
  }

  /** The names printed so far set the bits taken so far. */
  ghost predicate SetsTaken(mask: Mask, d: Dump, entries: seq<Entry>)
  {
    && d.rest <= mask
    && Effect(d.names, entries) == Outcome(true, mask - d.rest)
    && Tokenlike(d.names)
  }

  lemma NextName(mask: Mask, d: Dump, entries: seq<Entry>, i: nat)
    requires i < |entries| && SetsTaken(mask, d, entries) && NameableEntry(entries, i)
    requires d.rest * entries[i].value == entries[i].value
    ensures SetsTaken(mask, Dump(d.names + [FirstAlias(entries[i].name)], d.rest - entries[i].value), entries)
  {
    EffectSnoc(d.names, entries, FirstAlias(entries[i].name));
    TakenBits(mask, d.rest, entries[i].value);
    TokenlikeSnoc(d.names, FirstAlias(entries[i].name));
  }

  /** The printed names, read as tokens, set exactly the bits that were taken. */
  lemma {:induction false} NamesSetBits(mask: Mask, entries: seq<Entry>, n: nat)
    requires Nameable(entries) && n <= |entries|
    ensures SetsTaken(mask, Dumped(mask, entries[..n]), entries)
  {
    if n == 0 {
      assert entries[..n] == [];
    } else {
      var before, entry := Dumped(mask, entries[..n - 1]), entries[n - 1];
      NamesSetBits(mask, entries, n - 1);
      assert entries[..n][..n - 1] == entries[..n - 1];
      assert NameableEntry(entries, n - 1);
      if before.rest * entry.value == entry.value {
        NextName(mask, before, entries, n - 1);
      }
    }
  }

  ghost predicate Tokenlike(names: seq<string>)
  {
    forall k :: 0 <= k < |names| ==> Plain(names[k]) && !SaysNone(names[k])
  }

  lemma TokenlikeSnoc(names: seq<string>, name: string)
    requires Tokenlike(names) && Plain(name) && !SaysNone(name)
    ensures Tokenlike(names + [name])
  {
    assert forall k :: 0 <= k < |names| ==> (names + [name])[k] == names[k];
  }

  lemma TakenBits(mask: Mask, rest: Mask, value: Mask)
    requires rest <= mask && rest * value == value
    ensures (mask - rest) + value == mask - (rest - value)
  {
    assert value <= rest;
  }

  lemma JoinIsNotNone(names: seq<string>)
    requires forall k :: 0 <= k < |names| ==> !SaysNone(names[k])
    ensures !SaysNone(Join(names))
  {
    if |names| > 1 {
      assert Join(names)[|names[0]|] == ',';
    }
  }

  /** Printing a set and parsing what the shell makes of it gives the set without the bits that the
      greedy choice of names leaves over. */
  lemma BitsetRoundTrip(mask: Mask, entries: seq<Entry>)
    requires Nameable(entries)
    ensures var d := Dumped(mask, entries);
            && Shell.Read(JoinQuoted(d.names), false) == Shell.Word(Join(d.names))
            && Bitset(Join(d.names), entries) == Outcome(true, mask - d.rest)
            && (mask - d.rest == mask <==> d.rest == {})
  {
    var d := Dumped(mask, entries);
    assert entries[..|entries|] == entries;
    NamesSetBits(mask, entries, |entries|);
    ShellReadsNames(d.names);
    JoinIsNotNone(d.names);
    TokensOfJoin(Join(d.names), 0, d.names);
    assert Join(d.names)[0..] == Join(d.names);
    assert d.rest <= mask;
  }

  /** All bits of the entries that lie within the mask. */
  function Coverage(mask: Mask, entries: seq<Entry>): Mask
  {
    if entries == [] then {}
    else
      var before, value := Coverage(mask, entries[..|entries| - 1]), entries[|entries| - 1].value;
      if value <= mask then before + value else before
  }

  ghost predicate Disjoint(entries: seq<Entry>)
  {
    forall i, j :: 0 <= i < j < |entries| ==> entries[i].value !! entries[j].value
  }

  /** With disjoint entries the greedy choice misses nothing that could be named. */
  lemma {:induction false} DisjointLeavesUncovered(mask: Mask, entries: seq<Entry>)
    requires Disjoint(entries)
    ensures Dumped(mask, entries).rest == mask - Coverage(mask, entries)
  {
    if entries != [] {
      var last := |entries| - 1;
      var front, value := entries[..last], entries[last].value;
      DisjointLeavesUncovered(mask, front);
      forall i | 0 <= i < |front|
        ensures front[i].value !! value
      {
        assert front[i] == entries[i];
      }
      CoverageApart(mask, front, value);
      assert (mask - Coverage(mask, front)) * value == value <==> value <= mask;
    }
  }

  lemma {:induction false} CoverageApart(mask: Mask, entries: seq<Entry>, value: Mask)
    requires forall i :: 0 <= i < |entries| ==> entries[i].value !! value
    ensures Coverage(mask, entries) !! value
  {
    if entries != [] {
      CoverageApart(mask, entries[..|entries| - 1], value);
    }
  }

  /** So a set survives printing and parsing if the values are pairwise disjoint and cover it. */
  lemma CoveredRoundTrip(mask: Mask, entries: seq<Entry>)
    requires Nameable(entries) && Disjoint(entries) && Coverage(mask, entries) == mask
    ensures Bitset(Join(Dumped(mask, entries).names), entries) == Outcome(true, mask)
  {
    BitsetRoundTrip(mask, entries);
    DisjointLeavesUncovered(mask, entries);
  }

  // Two entries that share a bit.
  const OVERLAP: seq<Entry> := [Entry("a", {0}), Entry("b", {0, 1})]

  lemma OneLetter(c: char, text: string)
    requires text == [c] && c != '/'
    ensures FirstAlias(text) == text && Named(text, text, 0)
    ensures forall other: char :: ToUpper(other) != ToUpper(c) ==> !Named([other], text, 0)
  {
    assert AliasEnd(text, 0) == AliasEnd(text, 1) == 1 && text[..1] == text[0..1] == text;
  }

  lemma OverlapNameable()
    ensures Nameable(OVERLAP)
  {
    OneLetter('a', "a");
    OneLetter('b', "b");
    LetterNameable(OVERLAP, 0, "a");
    LetterNameable(OVERLAP, 1, "b");
  }

  lemma LetterNameable(entries: seq<Entry>, i: nat, alias: string)
    requires i < |entries| && i <= 1 && entries[i].name == alias == FirstAlias(alias)
    requires Plain(alias) && !SaysNone(alias) && Named(alias, entries[i].name, 0)
    requires i == 1 ==> !Named(alias, entries[0].name, 0)
    ensures NameableEntry(entries, i)
  {
    assert FirstMatch(alias, entries, i) == i;
    assert FirstMatch(alias, entries, 0) == i;
  }

  lemma OverlapDumped()
    ensures Dumped({0, 1}, OVERLAP) == Dump(["a"], {1})
  {
    OneLetter('a', "a");
    assert OVERLAP[..1] == [Entry("a", {0})];
    assert OVERLAP[..1][..0] == [];
    assert {0, 1} * {0} == {0} && {0, 1} - {0} == {1};
    assert Dumped({0, 1}, OVERLAP[..1]) == Dump(["a"], {1});
    assert 0 !in {1} * {0, 1};
  }

  /** Overlapping values can spoil it: the first entry takes a bit that the second one needs, and the set
      of both bits is printed and parsed as the first one alone. */
  lemma OverlapLosesBits()
    ensures Nameable(OVERLAP) && Coverage({0, 1}, OVERLAP) == {0, 1}
    ensures Bitset(Join(Dumped({0, 1}, OVERLAP).names), OVERLAP) == Outcome(true, {0})
  {
    OverlapNameable();
    OverlapDumped();
    BitsetRoundTrip({0, 1}, OVERLAP);
    assert {0, 1} - {1} == {0};
  }
}
