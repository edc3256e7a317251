/**
  `parse_bitset` of SCOREP_Config.c as it works on a copy of the value: `strtok` ends tokens by
  writing terminators into the buffer, and `trim_string` cuts white space off in place.
*/
module BitsetParser {
  import opened CText
  import opened ConfigBitset

  // ------------------------------------------------------------------ strtok

  /** `strtok` with the delimiters " ,:;": the position of the next token, or -1, and where the next
      call goes on. The first loop skips delimiters, the second one the token. */
  method Strtok(buf: array<char>, from: nat) returns (token: int, save: nat)
    requires from < buf.Length && buf[buf.Length - 1] == '\0'
    modifies buf
    ensures from <= TokenStart(old(buf[..]), from) < buf.Length
    ensures var t := TokenStart(old(buf[..]), from);
            var e := TokenEnd(old(buf[..]), t);
            && (old(buf[..])[t] == '\0' ==> token == -1 && save == t && buf[..] == old(buf[..]))
            && (old(buf[..])[t] != '\0' ==>
                  && token == t < e < buf.Length && buf[..] == old(buf[..])[e := '\0']
                  && save == if old(buf[..])[e] == '\0' then e else e + 1)
  {
    ghost var b := buf[..];
    var t := from;
    while IsDelimiter(buf[t])
      invariant from <= t < buf.Length && TokenStart(b, t) == TokenStart(b, from)
      decreases buf.Length - t
    {
      t := t + 1;
    }
    if buf[t] == '\0' {
      return -1, t;
    }
    var e := t;
    while !IsDelimiter(buf[e]) && buf[e] != '\0'
      invariant t <= e < buf.Length && TokenEnd(b, e) == TokenEnd(b, t)
      decreases buf.Length - e
    {
      e := e + 1;
    }
    token, save := t, e;
    if buf[e] != '\0' {
      buf[e] := '\0';
      save := e + 1;
    }
    assert buf[..] == b[e := '\0'];
  }

  /** The buffer still holds the string, and its terminator, from the given position on. */
  ghost predicate Holds(b: string, s: string, from: nat)
  {
    from <= |s| && |b| == |s| + 1 && forall k :: from <= k <= |s| ==> b[k] == At(s, k)
  }

  /** A buffer that holds the rest of a string has the tokens of the string. */
  lemma SameToken(b: string, s: string, i: nat)
    requires Holds(b, s, i) && CString(s)
    ensures TokenStart(b, i) == TokenStart(s, i)
    ensures b[TokenStart(s, i)] == '\0' <==> TokenStart(s, i) == |s|
    ensures TokenEnd(b, TokenStart(s, i)) == TokenEnd(s, TokenStart(s, i))
  {
    SameStart(b, s, i);
    SameEnd(b, s, TokenStart(s, i));
  }

  lemma {:induction false} SameStart(b: string, s: string, i: nat)
    requires Holds(b, s, i)
    ensures TokenStart(b, i) == TokenStart(s, i)
    decreases |s| - i
  {
    if i < |s| {
      SameStart(b, s, i + 1);
    }
  }

  lemma {:induction false} SameEnd(b: string, s: string, i: nat)
    requires Holds(b, s, i)
    ensures TokenEnd(b, i) == TokenEnd(s, i)
    decreases |s| - i
  {
    if i < |s| {
      SameEnd(b, s, i + 1);
    }
  }

  // ------------------------------------------------------------------ trim_string

  /** Terminators from lo up to hi. */
  function Cut(b: string, lo: nat, hi: nat): (r: string)
    ensures |r| == |b|
  {
    seq(|b|, k requires 0 <= k < |b| => if lo <= k < hi then '\0' else b[k])
  }

  /** Where the trimmed text of the C string from p to e starts and ends. */
  function TrimmedFrom(b: string, p: nat, e: nat): (from: nat)
    requires p <= e <= |b|
    ensures p <= from <= e
  {
    p + SpaceEnd(b[p..e], 0)
  }

  function TrimmedTo(b: string, p: nat, e: nat): (to: nat)
    requires p <= e <= |b|
    ensures TrimmedFrom(b, p, e) <= to <= e
  {
    TrimmedFrom(b, p, e) + |Trim(b[p..e])|
  }

  /** `trim_string` on the C string from p to the terminator at e: the string now starts at p' and ends
      at a terminator behind its trimmed text, and nothing else changes. */
  method TrimString(buf: array<char>, p: nat, ghost e: nat) returns (p': nat)
    requires p <= e < buf.Length && buf[e] == '\0' && CString(buf[p..e])
    modifies buf
    ensures p' == TrimmedFrom(old(buf[..]), p, e)
    ensures buf[..] == Cut(old(buf[..]), TrimmedTo(old(buf[..]), p, e), e)
  {
    ghost var b := buf[..];
    assert b[p..e] == buf[p..e];
    p' := LeadingSpace(buf, p, e);
    assert b[p..e][p' - p..] == b[p'..e] == buf[p'..e];
    if buf[p'] != '\0' {
      CutTrailing(buf, p', e);
    } else {
      assert Cut(b, e, e) == b;
    }
  }

  /** The first half of `trim_string`: the first character that is not white space. */
  method LeadingSpace(buf: array<char>, p: nat, ghost e: nat) returns (p': nat)
    requires p <= e < buf.Length && buf[e] == '\0' && CString(buf[p..e])
    ensures p' == p + SpaceEnd(buf[p..e], 0) <= e
    ensures buf[p'] == '\0' <==> p' == e
    ensures !IsSpace(buf[p'])
  {
    ghost var text := buf[p..e];
    p' := p;
    while IsSpace(buf[p'])
      invariant p <= p' <= e && SpaceEnd(text, p' - p) == SpaceEnd(text, 0)
      decreases e - p'
    {
      assert buf[p'] == text[p' - p];
      p' := p' + 1;
    }
    assert p' < e ==> buf[p'] == text[p' - p];
  }

  /** The second half of `trim_string`: terminators over the trailing white space. */
  method CutTrailing(buf: array<char>, p: nat, ghost e: nat)
    requires p < e < buf.Length && buf[e] == '\0' && CString(buf[p..e]) && !IsSpace(buf[p])
    modifies buf
    ensures buf[..] == Cut(old(buf[..]), p + TrimEnd(old(buf[p..e])), e)
  {
    ghost var b, text := buf[..], buf[p..e];
    var length := StrLen(buf, p, e);
    var end := p + length - 1;
    ghost var n: nat := e - p;
    assert text[..n] == text;
    while IsSpace(buf[end])
      invariant 0 < n && end + 1 == p + n && p + n <= e
      invariant forall k :: 0 <= k < buf.Length ==> buf[k] == if p + n <= k < e then '\0' else b[k]
      invariant TrimEnd(text[..n]) == TrimEnd(text)
      decreases n
    {
      assert buf[p + (n - 1)] == text[n - 1] && buf[p + 0] == text[0];
      TrimStep(text, n);
      buf[end] := '\0';
      end := end - 1;
      n := n - 1;
    }
    assert buf[p + (n - 1)] == text[n - 1];
    TrimStop(text, n);
  }

  lemma TrimStep(text: string, n: nat)
    requires 0 < n <= |text| && IsSpace(text[n - 1])
    ensures TrimEnd(text[..n]) == TrimEnd(text[..n - 1])
  {
    assert text[..n][..n - 1] == text[..n - 1];
  }

  lemma TrimStop(text: string, n: nat)
    requires 0 < n <= |text| && !IsSpace(text[n - 1])
    ensures TrimEnd(text[..n]) == n
  {
  }

  method StrLen(buf: array<char>, p: nat, ghost e: nat) returns (n: nat)
    requires p <= e < buf.Length && buf[e] == '\0' && CString(buf[p..e])
    ensures p + n == e
  {
    n := 0;
    while buf[p + n] != '\0'
      invariant p + n <= e
      decreases e - (p + n)
    {
      n := n + 1;
    }
  }

  // ------------------------------------------------------------------ parse_bitset

  /** The first token is there, but trimming leaves nothing of it: only tabs, newlines and the like. */
  predicate BlankFirst(s: string)
  {
    TokenStart(s, 0) < |s| && EntryAt(s, 0) == []
  }

  /** A buffer that ends in a terminator. */
  predicate Terminated(b: string)
  {
    b != [] && b[|b| - 1] == '\0'
  }

  /** What `strtok` and `trim_string` do to a buffer in one evaluation of the loop condition. */
  datatype Pass = Pass(found: bool, entry: string, buf: string, save: nat)

  function OnePass(b: string, from: nat): (pass: Pass)
    requires from < |b| && Terminated(b)
    ensures |pass.buf| == |b| && Terminated(pass.buf) && (pass.found ==> pass.save < |b|)
  {
    var t := TokenStart(b, from);
    if t == |b| || b[t] == '\0' then Pass(false, [], b, t)
    else
      var e := TokenEnd(b, t);
      if e == |b| then Pass(false, [], b, t)
      else
        var cut := b[e := '\0'];
        Pass(true, Trim(b[t..e]), Cut(cut, TrimmedTo(cut, t, e), e), if b[e] == '\0' then e else e + 1)
  }

  /** The loop condition of `parse_bitset`: `strtok`, then `trim_string`. */
  method NextEntry(buf: array<char>, from: nat) returns (found: bool, entry: string, save: nat)
    requires from < buf.Length && Terminated(buf[..])
    modifies buf
    ensures OnePass(old(buf[..]), from) == Pass(found, entry, buf[..], save)
  {
    ghost var b := buf[..];
    ghost var t := TokenStart(b, from);
    assert b[|b| - 1] == buf[buf.Length - 1];
    var token;
    token, save := Strtok(buf, from);
    if token == -1 {
      found, entry := false, "";
      return;
    }
    found := true;
    ghost var e := TokenEnd(b, t);
    ghost var cut := b[e := '\0'];
    TokenIsCString(b, t);
    assert buf[t..e] == cut[t..e] == b[t..e];
    entry := TrimmedText(buf, token, e);
  }

  lemma {:induction false} TokenIsCString(b: string, i: nat)
    requires i <= |b|
    ensures CString(b[i..TokenEnd(b, i)])
    decreases |b| - i
  {
    var e := TokenEnd(b, i);
    if i < e {
      TokenIsCString(b, i + 1);
      assert b[i..e] == [b[i]] + b[i + 1..e];
    }
  }

  /** The token without white space at its ends, cut out in place and read. */
  method TrimmedText(buf: array<char>, token: nat, ghost e: nat) returns (entry: string)
    requires token <= e < buf.Length && buf[e] == '\0' && CString(buf[token..e])
    modifies buf
    ensures entry == Trim(old(buf[token..e]))
    ensures buf[..] == Cut(old(buf[..]), TrimmedTo(old(buf[..]), token, e), e)
  {
    ghost var b := buf[..];
    ghost var from, to := TrimmedFrom(b, token, e), TrimmedTo(b, token, e);
    assert b[token..e] == buf[token..e];
    var p := TrimString(buf, token, e);
    TrimmedSlice(b, token, e);
    assert buf[from..to] == b[from..to];
    assert buf[to] == '\0';
    var n := StrLen(buf, p, to);
    entry := buf[p..p + n];
  }

  lemma TrimmedSlice(b: string, p: nat, e: nat)
    requires p <= e <= |b|
    ensures b[TrimmedFrom(b, p, e)..TrimmedTo(b, p, e)] == Trim(b[p..e])
    ensures CString(b[p..e]) ==> CString(Trim(b[p..e]))
  {
    var text, start := b[p..e], SpaceEnd(b[p..e], 0);
    var m := TrimEnd(text[start..]);
    assert Trim(text) == text[start..][..m] == text[start..start + m];
    assert text[start..start + m] == b[p + start..p + start + m];
  }

  /** While the buffer still holds the string, a pass gives the string's next token. */
  lemma PassOnString(b: string, s: string, from: nat)
    requires CString(s) && Holds(b, s, from)
    ensures Terminated(b)
    ensures var pass := OnePass(b, from);
            && (pass.found <==> TokenStart(s, from) < |s|)
            && (pass.found ==>
                  && pass.entry == EntryAt(s, from) && pass.save == SaveAt(s, from) > from
                  && Holds(pass.buf, s, pass.save))
  {
    SameToken(b, s, from);
    var t := TokenStart(s, from);
    if t < |s| {
      assert b[t..TokenEnd(s, t)] == s[t..TokenEnd(s, t)];
    }
  }

  // ------------------------------------------------------------------ the search that starts over

  ghost function Iterated(f: string -> string, b: string, n: nat): string
    decreases n
  {
    if n == 0 then b else f(Iterated(f, b, n - 1))
  }

  /** What a function keeps is kept by applying it any number of times. */
  lemma {:induction false} IteratedKeeps(f: string -> string, kept: string -> bool, b: string, n: nat)
    requires kept(b) && forall x :: kept(x) ==> kept(f(x))
    ensures kept(Iterated(f, b, n))
    decreases n
  {
    if n > 0 {
      IteratedKeeps(f, kept, b, n - 1);
    }
  }

  /** The buffer after a pass that starts at its beginning. */
  function NextPass(b: string): (r: string)
    ensures |r| == |b| && (Terminated(b) ==> Terminated(r))
  {
    if Terminated(b) then OnePass(b, 0).buf else b
  }

  /** The buffer after n of them. */
  ghost function Passes(b: string, n: nat): (r: string)
    requires Terminated(b)
    ensures |r| == |b| && Terminated(r)
  {
    IteratedKeeps(NextPass, (x: string) => |x| == |b| && Terminated(x), b, n);
    Iterated(NextPass, b, n)
  }

  /** The copy of the value that the parser works on. */
  function Copied(s: string): (b: string)
    ensures Terminated(b) && Holds(b, s, 0)
  {
    s + "\0"
  }

  lemma {:induction false} CutStart(buf: string, e: nat, i: nat)
    requires i <= |buf| && TokenStart(buf, i) <= e < |buf|
    requires IsDelimiter(buf[e]) ==> TokenStart(buf, i) < e
    ensures TokenStart(buf[e := '\0'], i) == TokenStart(buf, i)
    decreases |buf| - i
  {
    if i < |buf| && IsDelimiter(buf[i]) {
      CutStart(buf, e, i + 1);
    }
  }

  lemma {:induction false} CutEnd(buf: string, e: nat, i: nat)
    requires i <= |buf| && TokenEnd(buf, i) == e < |buf|
    ensures TokenEnd(buf[e := '\0'], i) == e
    decreases |buf| - i
  {
    if i < e {
      CutEnd(buf, e, i + 1);
    }
  }

  /** A pass from the beginning of the buffer finds a token of which trimming leaves nothing. */
  predicate FindsBlank(b: string)
  {
    Terminated(b) && OnePass(b, 0).found && OnePass(b, 0).entry == []
  }

  /** Where the first token is, and that it is blank, does not change when it is cut. */
  lemma CutKeepsFirst(b: string)
    requires FindsBlank(b)
    ensures FindsBlank(NextPass(b))
  {
    var t := TokenStart(b, 0);
    var e := TokenEnd(b, t);
    var cut := b[e := '\0'];
    assert cut[t..e] == b[t..e];
    BlankTrimKeeps(cut, t, e);
    CutStart(b, e, 0);
    CutEnd(b, e, t);
  }

  /** Nothing is cut from the end of a blank token: all of it was skipped from its start. */
  lemma BlankTrimKeeps(b: string, p: nat, e: nat)
    requires p <= e <= |b| && Trim(b[p..e]) == []
    ensures Cut(b, TrimmedTo(b, p, e), e) == b
  {
    var text, start := b[p..e], SpaceEnd(b[p..e], 0);
    if start < |text| {
      TrimEndPositive(text[start..]);
    }
  }

  lemma {:induction false} TrimEndPositive(s: string)
    requires s != [] && !IsSpace(s[0])
    ensures TrimEnd(s) > 0
  {
    if |s| > 1 {
      TrimEndPositive(s[..|s| - 1]);
    }
  }

  /** With a blank first token the search starts over for ever: every pass, however many came before,
      finds a token of which nothing is left. */
  lemma BlankFirstRepeats(s: string, n: nat)
    requires CString(s) && BlankFirst(s)
    ensures FindsBlank(Passes(Copied(s), n))
  {
    PassOnString(Copied(s), s, 0);
    forall x | FindsBlank(x)
      ensures FindsBlank(NextPass(x))
    {
      CutKeepsFirst(x);
    }
    IteratedKeeps(NextPass, FindsBlank, Copied(s), n);
  }

  /** A value that is one tab does not mean none, and the search in it starts over for ever. */
  lemma TabRepeats()
    ensures CString("\t") && !SaysNone("\t") && BlankFirst("\t")
    ensures forall n: nat :: FindsBlank(Passes(Copied("\t"), n))
  {
    TabIsBlank("\t");
    forall n: nat
      ensures FindsBlank(Passes(Copied("\t"), n))
    {
      BlankFirstRepeats("\t", n);
    }
  }

  lemma TabIsBlank(s: string)
    requires s == ['\t']
    ensures CString(s) && BlankFirst(s)
  {
    assert TokenStart(s, 0) == 0 && TokenEnd(s, 0) == TokenEnd(s, 1) == 1;
    assert s[0..1] == s && SpaceEnd(s, 0) == SpaceEnd(s, 1) == 1;
  }

  /** Once a token is unknown, the later ones do not matter. */
  lemma {:induction false} EffectStuck(tokens: seq<string>, entries: seq<Entry>, n: nat)
    requires n <= |tokens| && !Effect(tokens[..n], entries).success
    ensures Effect(tokens, entries) == Effect(tokens[..n], entries)
  {
    if n < |tokens| {
      var front := tokens[..|tokens| - 1];
      assert front[..n] == tokens[..n];
      EffectStuck(front, entries, n);
    } else {
      assert tokens[..n] == tokens;
    }
  }

  /** Before a turn of the loop: does `strtok` start over, how many turns came before, the buffer, where the
      search goes on, the mask, and the tokens that were and are still to be applied. */
  datatype State = State(restart: bool, turn: nat, buf: string, save: nat, mask: Mask, done: seq<string>,
                         rest: seq<string>)

  function PassOf(st: State): Pass
    requires Terminated(st.buf) && (!st.restart ==> st.save < |st.buf|)
  {
    OnePass(st.buf, if st.restart then 0 else st.save)
  }

  /** Either the loop still searches from the beginning, having found the first token blank in every turn
      so far, or it moves through the string. */
  ghost predicate Searching(s: string, entries: seq<Entry>, st: State)
  {
    && Terminated(st.buf) && |st.buf| == |s| + 1
    && Effect(st.done, entries) == Outcome(true, st.mask) && Tokens(s, 0) == st.done + st.rest
    && (st.restart ==>
          && st.buf == Passes(Copied(s), st.turn) && st.done == [] && st.rest == Tokens(s, 0)
          && (st.turn > 0 ==> BlankFirst(s)))
    && (!st.restart ==>
          && !BlankFirst(s) && Holds(st.buf, s, st.save) && st.turn <= st.save <= |s|
          && st.rest == Tokens(s, st.save))
  }

  /** The state after a turn that found a blank token. */
  ghost function AfterBlank(s: string, st: State): (st': State)
    requires Terminated(st.buf) && (!st.restart ==> st.save < |st.buf|) && PassOf(st).save <= |s|
  {
    State(st.restart, st.turn + 1, PassOf(st).buf, PassOf(st).save, st.mask, st.done,
          if st.restart then st.rest else Tokens(s, PassOf(st).save))
  }

  /** What the next pass finds. */
  lemma PassIs(s: string, entries: seq<Entry>, st: State)
    requires CString(s) && Searching(s, entries, st)
    ensures st.restart && BlankFirst(s) ==> PassOf(st).found && PassOf(st).entry == []
    ensures !(st.restart && BlankFirst(s)) ==>
              var pass := PassOf(st);
              && (!pass.found ==> st.rest == [])
              && (pass.found ==>
                    && st.turn < pass.save <= |s| && Holds(pass.buf, s, pass.save)
                    && (pass.entry == [] ==> !st.restart)
                    && st.rest == AfterEntry(pass.entry, Tokens(s, pass.save)))
  {
    if st.restart && BlankFirst(s) {
      BlankFirstRepeats(s, st.turn);
    } else {
      PassOnString(st.buf, s, if st.restart then 0 else st.save);
    }
  }

  lemma NoMoreTokens(s: string, entries: seq<Entry>, st: State)
    requires CString(s) && Searching(s, entries, st) && !PassOf(st).found
    ensures !BlankFirst(s) && Effect(Tokens(s, 0), entries) == Outcome(true, st.mask)
  {
    PassIs(s, entries, st);
    assert st.done + [] == st.done;
  }

  lemma BlankToken(s: string, entries: seq<Entry>, st: State)
    requires CString(s) && Searching(s, entries, st) && PassOf(st).found && PassOf(st).entry == []
    ensures PassOf(st).save <= |s| && Searching(s, entries, AfterBlank(s, st))
  {
    if st.restart {
      BlankAgain(s, entries, st);
    } else {
      BlankLater(s, entries, st);
    }
  }

  lemma BlankLater(s: string, entries: seq<Entry>, st: State)
    requires CString(s) && Searching(s, entries, st) && PassOf(st).found && PassOf(st).entry == [] && !st.restart
    ensures PassOf(st).save <= |s| && Searching(s, entries, AfterBlank(s, st))
  {
    PassIs(s, entries, st);
  }

  lemma BlankAgain(s: string, entries: seq<Entry>, st: State)
    requires CString(s) && Searching(s, entries, st) && PassOf(st).found && PassOf(st).entry == [] && st.restart
    ensures BlankFirst(s) && PassOf(st).buf == Passes(Copied(s), st.turn + 1)
  {
    PassIs(s, entries, st);
  }

  lemma NextToken(s: string, entries: seq<Entry>, st: State, known: bool, mask: Mask)
    requires CString(s) && Searching(s, entries, st) && PassOf(st).found && PassOf(st).entry != []
    requires Effect(st.done + [PassOf(st).entry], entries) == Outcome(known, mask)
    ensures PassOf(st).save <= |s| && !BlankFirst(s)
    ensures var pass := PassOf(st);
            known ==> Searching(s, entries, State(false, st.turn + 1, pass.buf, pass.save, mask,
                                                  st.done + [pass.entry], Tokens(s, pass.save)))
    ensures !known ==> Effect(Tokens(s, 0), entries) == Outcome(known, mask)
  {
    PassIs(s, entries, st);
    TokenDone(Tokens(s, 0), st.done, PassOf(st).entry, Tokens(s, PassOf(st).save), entries);
  }

  lemma TokenDone(all: seq<string>, done: seq<string>, entry: string, rest: seq<string>,
                  entries: seq<Entry>)
    requires all == done + ([entry] + rest)
    ensures all == (done + [entry]) + rest
    ensures !Effect(done + [entry], entries).success ==> Effect(all, entries) == Effect(done + [entry], entries)
  {
    assert all[..|done| + 1] == done + [entry];
    if !Effect(done + [entry], entries).success {
      EffectStuck(all, entries, |done| + 1);
    }
  }

  /** The effect of one token on the set. */
  method Apply(entry: string, entries: seq<Entry>, mask: Mask, ghost done: seq<string>) returns (known: bool,
               mask': Mask)
    requires Effect(done, entries) == Outcome(true, mask) && entry != []
    ensures Effect(done + [entry], entries) == Outcome(known, mask')
  {
    assert (done + [entry])[..|done|] == done;
    var invert, name := false, entry;
    if entry[0] == '~' {
      invert := true;
      name := entry[1..];
    }
    var m := FindEntry(name, entries);
    if m == |entries| {
      return false, mask;
    }
    known := true;
    mask' := if invert then mask - entries[m].value else mask + entries[m].value;
  }

  datatype Ending = Ended(outcome: Outcome) | StillLooping

  /** `parse_bitset`, for a number of turns of its loop. It ends, with the reference's outcome, within as
      many turns as the value has characters, and one more, if the first token is not blank; otherwise
      it never ends. */
  method ParseBitset(value: string, entries: seq<Entry>, turns: nat) returns (r: Ending)
    requires CString(value)
    ensures r.Ended? ==> r.outcome == Bitset(value, entries)
    ensures SaysNone(value) ==> r.Ended?
    ensures !SaysNone(value) && !BlankFirst(value) && turns > |value| ==> r.Ended?
    ensures !SaysNone(value) && BlankFirst(value) ==> r.StillLooping?
  {
    var none := EqualIcaseString(value, "none");
    var no := EqualIcaseString(value, "no");
    if none || no {
      return Ended(Outcome(true, {}));
    }
    var valueCopy := new char[|value| + 1](i requires 0 <= i => if i < |value| then value[i] else '\0');
    assert valueCopy[..] == Copied(value);
    var mask: Mask, valueForStrtok, save := {}, true, 0;
    ghost var done: seq<string>, rest := [], Tokens(value, 0);
    for turn := 0 to turns
      invariant fresh(valueCopy) && valueCopy.Length == |value| + 1
      invariant Searching(value, entries, State(valueForStrtok, turn, valueCopy[..], save, mask, done, rest))
    {
      ghost var before := State(valueForStrtok, turn, valueCopy[..], save, mask, done, rest);
      var found, entry;
      found, entry, save := NextEntry(valueCopy, if valueForStrtok then 0 else save);
      if !found {
        NoMoreTokens(value, entries, before);
        return Ended(Outcome(true, mask));
      }
      if |entry| == 0 {
        BlankToken(value, entries, before);
        rest := if valueForStrtok then rest else Tokens(value, save);
        continue;
      }
      valueForStrtok := false;
      var known;
      known, mask := Apply(entry, entries, mask, done);
      NextToken(value, entries, before, known, mask);
      done, rest := done + [entry], Tokens(value, save);
      if !known {
        return Ended(Outcome(false, mask));
      }
    }
    r := StillLooping;
  }

  /** What a dump prints can be parsed: no terminator inside, and no blank first token. */
  lemma DumpIsParsable(names: seq<string>)
    requires Tokenlike(names)
    ensures CString(Join(names)) && !BlankFirst(Join(names))
  {
    var s := Join(names);
    JoinIsCString(names);
    if |names| == 1 {
      FirstToken(s, 0, names[0], "", |s|);
    } else if |names| > 1 {
      FirstToken(s, 0, names[0], "," + Join(names[1..]), |names[0]| + 1);
    }
  }

  lemma {:induction false} JoinIsCString(names: seq<string>)
    requires Tokenlike(names)
    ensures CString(Join(names))
  {
    if |names| > 1 {
      assert Tokenlike(names[1..]) by {
        assert forall k :: 0 <= k < |names[1..]| ==> names[1..][k] == names[k + 1];
      }
      JoinIsCString(names[1..]);
    }
  }
}
