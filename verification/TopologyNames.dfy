/**
  Exchanging the names of user topologies between ranks, and the global name table.

  Every rank packs its distinct names into one buffer. The packing overwrites the last character of
  each name with the terminating NUL, so what is exchanged is the name without its last character.
  All ranks then unpack all buffers and number the different packed names.
*/
module TopologyNames {
  import opened FirstOccurrences

  const NUL: char := '\0'

  /** What `SCOREP_User_CartTopologyCreate` guarantees of a name, and C of any string. */
  type Name = s: string | |s| > 0 && NUL !in s witness "x"

  function Packed(name: Name): string
  {
    name[..|name| - 1]
  }

  function PackedNames(names: seq<Name>): (ps: seq<string>)
    ensures |ps| == |names|
    ensures forall i :: 0 <= i < |names| ==> ps[i] == Packed(names[i])
  {
    seq(|names|, i requires 0 <= i < |names| => Packed(names[i]))
  }

  /** The buffer of one rank: each packed name, NUL-terminated. */
  function Buffer(names: seq<Name>): string
  {
    if names == [] then [] else Buffer(names[..|names| - 1]) + Packed(names[|names| - 1]) + [NUL]
  }

  /** One name more: all of its characters but the last, and a terminator in the place of that. */
  lemma BufferNext(names: seq<Name>, name: Name)
    ensures Buffer(names + [name]) == Buffer(names) + name[..|name| - 1] + ['\0']
  {
    assert (names + [name])[..|names|] == names;
  }

  function TotalLength(names: seq<Name>): nat
  {
    if names == [] then 0 else TotalLength(names[..|names| - 1]) + |names[|names| - 1]|
  }

  lemma {:induction false} BufferLength(names: seq<Name>)
    ensures |Buffer(names)| == TotalLength(names)
  {
    if names != [] {
      BufferLength(names[..|names| - 1]);
    }
  }

  /** The C string that starts at an index. */
  function CString(row: string, at: nat): string
    requires at <= |row|
    decreases |row| - at
  {
    if at == |row| || row[at] == NUL then [] else [row[at]] + CString(row, at + 1)
  }

  lemma {:induction false} CStringOf(row: string, at: nat, text: string)
    requires at + |text| < |row| && NUL !in text
    requires row[at..at + |text|] == text && row[at + |text|] == NUL
    ensures CString(row, at) == text
    decreases |text|
  {
    if |text| > 0 {
      assert row[at] == text[0];
      assert row[at + 1..at + 1 + |text[1..]|] == text[1..];
      CStringOf(row, at + 1, text[1..]);
    }
  }

  lemma SliceOfPrefix(before: string, text: string, row: string)
    requires before + text + [NUL] <= row
    ensures row[|before|..|before| + |text|] == text && row[|before| + |text|] == NUL
  {
    var all := before + text + [NUL];
    assert row[..|all|] == all;
    assert all[|before|..|before| + |text|] == text && all[|before| + |text|] == NUL;
  }

  /** Unpacking at the running offset recovers every packed name, whatever follows the buffer. */
  lemma UnpackRecoversName(names: seq<Name>, row: string, j: nat)
    requires j < |names| && Buffer(names) <= row
    ensures TotalLength(names[..j]) <= |row|
    ensures CString(row, TotalLength(names[..j])) == Packed(names[j])
  {
    BufferLength(names[..j]);
    BufferHasName(names, j);
    NameInRow(Buffer(names[..j]), Packed(names[j]), row);
  }

  lemma {:induction false} BufferHasName(names: seq<Name>, j: nat)
    requires j < |names|
    ensures Buffer(names[..j]) + Packed(names[j]) + [NUL] <= Buffer(names)
    decreases |names|
  {
    var last := |names| - 1;
    if j < last {
      var front := names[..last];
      BufferHasName(front, j);
      assert front[..j] == names[..j];
    }
  }

  lemma NameInRow(before: string, text: string, row: string)
    requires before + text + [NUL] <= row && NUL !in text
    ensures CString(row, |before|) == text
  {
    SliceOfPrefix(before, text, row);
    CStringOf(row, |before|, text);
  }

  // ------------------------------------------------------------------ packing

  method PackNames(names: seq<Name>) returns (row: string)
    ensures Buffer(names) <= row
    ensures |row| == TotalLength(names) + |names|
  {
    var total := 0;
    for i := 0 to |names|
      invariant total == TotalLength(names[..i]) + i
    {
      assert names[..i + 1][..i] == names[..i];
      total := total + |names[i]| + 1;
    }
    assert names[..|names|] == names;
    var buffer := new char[total];
    var offset := 0;
    for i := 0 to |names|
      invariant offset == TotalLength(names[..i]) <= total
      invariant buffer[..offset] == Buffer(names[..i])
    {
      assert names[..i + 1][..i] == names[..i];
      TotalLengthMonotone(names, i + 1);
      assert names[..i] + [names[i]] == names[..i + 1];
      PackName(buffer, offset, names[..i], names[i]);
      offset := offset + |names[i]|;
    }
    row := buffer[..];
    assert row[..offset] == buffer[..offset];
  }

  /** The name is copied as a whole; the terminator then goes over its last character. */
  method PackName(buffer: array<char>, offset: nat, ghost front: seq<Name>, name: Name)
    requires offset + |name| <= buffer.Length && buffer[..offset] == Buffer(front)
    modifies buffer
    ensures buffer[..offset + |name|] == Buffer(front + [name])
  {
    CopyInto(buffer, offset, name);
    buffer[offset + |name| - 1] := NUL;
    BufferNext(front, name);
  }

  /** `memcpy` into a buffer. */
  method CopyInto(buffer: array<char>, offset: nat, text: string)
    requires offset + |text| <= buffer.Length
    modifies buffer
    ensures buffer[..] == old(buffer[..offset]) + text + old(buffer[offset + |text|..])
  {
    for k := 0 to |text|
      invariant buffer[..offset] == old(buffer[..offset])
      invariant buffer[offset..offset + k] == text[..k]
      invariant buffer[offset + |text|..] == old(buffer[offset + |text|..])
    {
      buffer[offset + k] := text[k];
    }
  }

  lemma {:induction false} TotalLengthMonotone(names: seq<Name>, n: nat)
    requires n <= |names|
    ensures TotalLength(names[..n]) <= TotalLength(names)
    decreases |names|
  {
    if n < |names| {
      var front := names[..|names| - 1];
      TotalLengthMonotone(front, n);
      assert front[..n] == names[..n];
    } else {
      assert names[..n] == names;
    }
  }

  // ------------------------------------------------------------------ the global table

  /** All packed names in the order the table loop meets them. */
  function AllPacked(ranks: seq<seq<Name>>): seq<string>
  {
    if ranks == [] then [] else AllPacked(ranks[..|ranks| - 1]) + PackedNames(ranks[|ranks| - 1])
  }

  function GlobalNames(ranks: seq<seq<Name>>): seq<string>
  {
    Dedup(AllPacked(ranks))
  }

  lemma {:induction false} PackedIsListed(ranks: seq<seq<Name>>, p: nat, u: nat)
    requires p < |ranks| && u < |ranks[p]|
    ensures Packed(ranks[p][u]) in AllPacked(ranks)
    ensures Packed(ranks[p][u]) in GlobalNames(ranks)
    decreases |ranks|
  {
    DedupFacts(AllPacked(ranks));
    if p < |ranks| - 1 {
      PackedIsListed(ranks[..|ranks| - 1], p, u);
    } else {
      assert PackedNames(ranks[p])[u] in PackedNames(ranks[p]);
    }
  }

  /** The entry of `map_to_global`. */
  function GlobalIndex(ranks: seq<seq<Name>>, p: nat, u: nat): (g: nat)
    requires p < |ranks| && u < |ranks[p]|
    ensures g < |GlobalNames(ranks)| && GlobalNames(ranks)[g] == Packed(ranks[p][u])
  {
    PackedIsListed(ranks, p, u);
    IndexOf(GlobalNames(ranks), Packed(ranks[p][u]))
  }

  /** Two topologies, on the same or on different ranks, share a global index exactly when their
      packed names are equal. */
  lemma SharedIndex(ranks: seq<seq<Name>>, p: nat, u: nat, q: nat, v: nat)
    requires p < |ranks| && u < |ranks[p]| && q < |ranks| && v < |ranks[q]|
    ensures GlobalIndex(ranks, p, u) == GlobalIndex(ranks, q, v) <==> Packed(ranks[p][u]) == Packed(ranks[q][v])
  {
  }

  lemma {:induction false} ListedIsPacked(ranks: seq<seq<Name>>, name: string) returns (p: nat, u: nat)
    requires name in AllPacked(ranks)
    ensures p < |ranks| && u < |ranks[p]| && Packed(ranks[p][u]) == name
  {
    var last := |ranks| - 1;
    if name in AllPacked(ranks[..last]) {
      p, u := ListedIsPacked(ranks[..last], name);
    } else {
      p := last;
      u :| u < |PackedNames(ranks[last])| && PackedNames(ranks[last])[u] == name;
    }
  }

  /** The numbering is dense: every index of the table is the index of some rank's topology. */
  lemma IndicesDense(ranks: seq<seq<Name>>, g: nat) returns (p: nat, u: nat)
    requires g < |GlobalNames(ranks)|
    ensures p < |ranks| && u < |ranks[p]| && GlobalIndex(ranks, p, u) == g
  {
    var all := AllPacked(ranks);
    DedupFacts(all);
    assert GlobalNames(ranks)[g] in GlobalNames(ranks);
    p, u := ListedIsPacked(ranks, GlobalNames(ranks)[g]);
    IndexOfDistinct(GlobalNames(ranks), g);
  }

  /** `sprintf( name, "%s", row + at )`. */
  method ReadCString(row: string, at: nat) returns (text: string)
    requires at <= |row|
    ensures text == CString(row, at)
  {
    text := [];
    var i := at;
    while i < |row| && row[i] != NUL
      invariant at <= i <= |row|
      invariant text + CString(row, i) == CString(row, at)
    {
      text := text + [row[i]];
      i := i + 1;
    }
  }

  /** What the two allgathers deliver: the lengths, padded with 0, and the buffers, padded with
      anything. */
  ghost predicate Gathered(ranks: seq<seq<Name>>, lengths: seq<seq<nat>>, rows: seq<string>, width: nat)
  {
    && |lengths| == |rows| == |ranks|
    && forall p :: 0 <= p < |ranks| ==> GatheredFrom(ranks[p], lengths[p], rows[p], width)
  }

  ghost predicate GatheredFrom(names: seq<Name>, lengths: seq<nat>, row: string, width: nat)
  {
    && |names| <= width == |lengths|
    && Buffer(names) <= row
    && forall j :: 0 <= j < width ==> lengths[j] == if j < |names| then |names[j]| else 0
  }

  /** One row of `map_to_global`: the index of every topology of a rank, then -1. */
  ghost predicate MapsTo(row: seq<int>, names: seq<Name>, table: seq<string>, width: nat)
  {
    && |row| == width >= |names|
    && forall j :: 0 <= j < width ==>
         if j < |names| then 0 <= row[j] < |table| && table[row[j]] == Packed(names[j]) else row[j] == -1
  }

  method LookUpOrAppend(table: array<string>, count: nat, name: string) returns (k: nat, count': nat)
    requires count < table.Length && Distinct(table[..count])
    modifies table
    ensures count <= count' <= count + 1 && count' <= table.Length
    ensures table[..count] == old(table[..count])
    ensures table[..count'] == AddNew(old(table[..count]), name)
    ensures k < count' && table[k] == name
  {
    k := 0;
    while k < count
      invariant k <= count
      invariant name !in table[..k]
    {
      if name == table[k] {
        assert name in table[..count];
        return k, count;
      }
      k := k + 1;
    }
    table[count] := name;
    count' := count + 1;
  }

  lemma MapsToExtends(row: seq<int>, names: seq<Name>, table: seq<string>, longer: seq<string>,
                      width: nat)
    requires MapsTo(row, names, table, width) && table <= longer
    ensures MapsTo(row, names, longer, width)
  {
  }

  /** Where the j-th name starts in the buffer. */
  function StartOf(names: seq<Name>, j: nat): nat
    requires j <= |names|
  {
    if j == 0 then 0 else StartOf(names, j - 1) + |names[j - 1]|
  }

  lemma {:induction false} StartIsTotal(names: seq<Name>, j: nat)
    requires j <= |names|
    ensures StartOf(names, j) == TotalLength(names[..j])
  {
    if j > 0 {
      StartIsTotal(names, j - 1);
      assert names[..j][..j - 1] == names[..j - 1];
    }
  }

  /** The table after the first j names of a rank. */
  ghost function TableAfter(names: seq<Name>, j: nat, before: seq<string>): seq<string>
    requires j <= |names|
  {
    if j == 0 then before else AddNew(TableAfter(names, j - 1, before), Packed(names[j - 1]))
  }

  lemma {:induction false} TableAfterIsDedup(names: seq<Name>, j: nat, before: seq<string>, listed: seq<string>)
    requires j <= |names| && before == Dedup(listed)
    ensures TableAfter(names, j, before) == Dedup(listed + PackedNames(names)[..j])
  {
    var packed := PackedNames(names);
    if j == 0 {
      assert listed + packed[..j] == listed;
    } else {
      TableAfterIsDedup(names, j - 1, before, listed);
      assert listed + packed[..j] == (listed + packed[..j - 1]) + [packed[j - 1]];
      DedupSnoc(listed + packed[..j - 1], packed[j - 1]);
    }
  }

  lemma AddNewDistinct(table: seq<string>, name: string)
    requires Distinct(table)
    ensures Distinct(AddNew(table, name)) && table <= AddNew(table, name)
  {
  }

  /** The table and the row of the map after the first j names of a rank: the rest of the row is -1. */
  ghost predicate Entered(names: seq<Name>, j: nat, before: seq<string>, table: seq<string>, mapRow: seq<int>,
                          width: nat)
    requires j <= |names|
  {
    && Distinct(table)
    && table == TableAfter(names, j, before)
    && |mapRow| == width >= |names|
    && forall i :: 0 <= i < width ==> PointsAt(names, j, table, i, mapRow[i])
  }

  ghost predicate PointsAt(names: seq<Name>, j: nat, table: seq<string>, i: nat, k: int)
    requires j <= |names|
  {
    if i < j then 0 <= k < |table| && table[k] == Packed(names[i]) else k == -1
  }

  lemma NoneEntered(names: seq<Name>, listed: seq<string>, table: seq<string>, mapRow: seq<int>, width: nat)
    requires table == Dedup(listed) && mapRow == seq(width, _ => -1) && |names| <= width
    ensures Entered(names, 0, table, table, mapRow, width)
  {
    DedupFacts(listed);
  }

  lemma AllEntered(names: seq<Name>, listed: seq<string>, before: seq<string>, table: seq<string>,
                   mapRow: seq<int>, width: nat)
    requires Entered(names, |names|, before, table, mapRow, width) && before == Dedup(listed)
    ensures table == Dedup(listed + PackedNames(names)) && MapsTo(mapRow, names, table, width)
  {
    TableAfterIsDedup(names, |names|, before, listed);
    assert PackedNames(names)[..|names|] == PackedNames(names);
    forall i | 0 <= i < width
      ensures if i < |names| then 0 <= mapRow[i] < |table| && table[mapRow[i]] == Packed(names[i])
              else mapRow[i] == -1
    {
      assert PointsAt(names, |names|, table, i, mapRow[i]);
    }
  }

  lemma OneEntered(names: seq<Name>, j: nat, before: seq<string>, table: seq<string>, longer: seq<string>,
                   mapRow: seq<int>, width: nat, k: nat)
    requires j < |names| && Entered(names, j, before, table, mapRow, width)
    requires longer == AddNew(table, Packed(names[j])) && k < |longer| && longer[k] == Packed(names[j])
    ensures Entered(names, j + 1, before, longer, mapRow[j := k], width)
  {
    AddNewDistinct(table, Packed(names[j]));
    forall i {:trigger mapRow[i]} | 0 <= i < width
      ensures PointsAt(names, j + 1, longer, i, mapRow[j := k][i])
    {
      assert PointsAt(names, j, table, i, mapRow[i]);
    }
  }

  /** Unpacks the names of one rank and enters them into the table. */
  method EnterNames(ghost names: seq<Name>, lengths: seq<nat>, row: string, width: nat,
                    table: array<string>, count: nat, ghost listed: seq<string>)
    returns (mapRow: seq<int>, count': nat)
    requires GatheredFrom(names, lengths, row, width)
    requires count + width <= table.Length && table[..count] == Dedup(listed)
    modifies table
    ensures count <= count' <= count + width
    ensures table[..count'] == Dedup(listed + PackedNames(names))
    ensures MapsTo(mapRow, names, table[..count'], width)
  {
    mapRow := seq(width, _ => -1);
    ghost var before := table[..count];
    NoneEntered(names, listed, before, mapRow, width);
    mapRow, count' := EnterFrom(names, lengths, row, width, table, count, before, mapRow);
    AllEntered(names, listed, before, table[..count'], mapRow, width);
  }

  /** The loop over the names of a rank. */
  method EnterFrom(ghost names: seq<Name>, lengths: seq<nat>, row: string, width: nat,
                   table: array<string>, count: nat, ghost before: seq<string>, unset: seq<int>)
    returns (mapRow: seq<int>, count': nat)
    requires GatheredFrom(names, lengths, row, width) && count + width <= table.Length
    requires Entered(names, 0, before, table[..count], unset, width)
    modifies table
    ensures count <= count' <= count + width
    ensures Entered(names, |names|, before, table[..count'], mapRow, width)
  {
    mapRow, count' := unset, count;
    var offset := 0;
    var j := 0;
    while j < width && lengths[j] != 0
      invariant 0 <= j <= |names|
      invariant offset == StartOf(names, j)
      invariant count <= count' <= count + j
      invariant Entered(names, j, before, table[..count'], mapRow, width)
    {
      mapRow, count' := EnterNext(names, j, row, offset, width, table, count', before, mapRow);
      offset := offset + lengths[j];
      j := j + 1;
    }
  }

  method UnpackName(ghost names: seq<Name>, ghost j: nat, row: string, offset: nat) returns (name: string)
    requires j < |names| && Buffer(names) <= row && offset == StartOf(names, j)
    ensures name == Packed(names[j])
  {
    StartIsTotal(names, j);
    UnpackRecoversName(names, row, j);
    name := ReadCString(row, offset);
  }

  /** The name at the offset, entered into the table and the row. */
  method EnterNext(ghost names: seq<Name>, j: nat, row: string, offset: nat, width: nat,
                   table: array<string>, count: nat, ghost before: seq<string>, mapRow: seq<int>)
    returns (mapRow': seq<int>, count': nat)
    requires j < |names| <= width && Buffer(names) <= row && offset == StartOf(names, j)
    requires count < table.Length && Entered(names, j, before, table[..count], mapRow, width)
    modifies table
    ensures count <= count' <= count + 1 && count' <= table.Length
    ensures Entered(names, j + 1, before, table[..count'], mapRow', width)
  {
    ghost var known := table[..count];
    var name := UnpackName(names, j, row, offset);
    var k;
    k, count' := LookUpOrAppend(table, count, name);
    OneEntered(names, j, before, known, table[..count'], mapRow, width, k);
    mapRow' := mapRow[j := k];
  }

  /** A row that points at the right names in the finished table holds the global indices. */
  lemma MapsToGlobalIndex(row: seq<int>, ranks: seq<seq<Name>>, p: nat, u: nat, width: nat)
    requires p < |ranks| && u < |ranks[p]|
    requires MapsTo(row, ranks[p], GlobalNames(ranks), width)
    ensures row[u] == GlobalIndex(ranks, p, u)
  {
    DedupFacts(AllPacked(ranks));
    IndexOfDistinct(GlobalNames(ranks), row[u]);
  }

  /** The table and the map after the first p ranks. */
  ghost predicate TableOf(ranks: seq<seq<Name>>, p: nat, table: seq<string>, mapToGlobal: seq<seq<int>>, width: nat)
    requires p <= |ranks|
  {
    && table == Dedup(AllPacked(ranks[..p]))
    && |mapToGlobal| == p
    && forall q :: 0 <= q < p ==> MapsTo(mapToGlobal[q], ranks[q], table, width)
  }

  method EnterRank(ghost ranks: seq<seq<Name>>, ghost p: nat, lengths: seq<nat>, row: string, width: nat,
                   table: array<string>, count: nat, mapToGlobal: seq<seq<int>>)
    returns (mapToGlobal': seq<seq<int>>, count': nat)
    requires p < |ranks| && GatheredFrom(ranks[p], lengths, row, width)
    requires count + width <= table.Length
    requires TableOf(ranks, p, table[..count], mapToGlobal, width)
    modifies table
    ensures count <= count' <= count + width
    ensures TableOf(ranks, p + 1, table[..count'], mapToGlobal', width)
  {
    ghost var known, before := table[..count], AllPacked(ranks[..p]);
    var mapRow;
    mapRow, count' := EnterNames(ranks[p], lengths, row, width, table, count, before);
    DedupPrefix(before, PackedNames(ranks[p]));
    assert ranks[..p + 1][..p] == ranks[..p];
    forall q | 0 <= q < p
      ensures MapsTo(mapToGlobal[q], ranks[q], table[..count'], width)
    {
      MapsToExtends(mapToGlobal[q], ranks[q], known, table[..count'], width);
    }
    mapToGlobal' := mapToGlobal + [mapRow];
  }

  /** The loop over all ranks. `width` is the largest number of names any rank has. */
  method BuildGlobalTable(ghost ranks: seq<seq<Name>>, lengths: seq<seq<nat>>, rows: seq<string>, width: nat)
    returns (names: seq<string>, mapToGlobal: seq<seq<int>>)
    requires Gathered(ranks, lengths, rows, width)
    ensures names == GlobalNames(ranks)
    ensures |mapToGlobal| == |ranks|
    ensures forall p :: 0 <= p < |ranks| ==> MapsTo(mapToGlobal[p], ranks[p], names, width)
  {
    var table := new string[width * |rows|](_ => "");
    var count := 0;
    mapToGlobal := [];
    for p := 0 to |rows|
      invariant count <= width * p <= table.Length
      invariant TableOf(ranks, p, table[..count], mapToGlobal, width)
    {
      MulMonotone(width, p + 1, |rows|);
      mapToGlobal, count := EnterRank(ranks, p, lengths[p], rows[p], width, table, count, mapToGlobal);
    }
    assert ranks[..|ranks|] == ranks;
    names := table[..count];
  }

  lemma MulMonotone(x: nat, y: nat, z: nat)
    requires y <= z
    ensures x * y <= x * z
    ensures y > 0 ==> x * y == x * (y - 1) + x
  {
    assert x * z == x * y + x * (z - y);
  }
}
