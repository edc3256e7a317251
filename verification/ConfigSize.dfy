/**
  Numbers and sizes in configuration values: `parse_uint64`, `parse_size` and `dump_size` of
  SCOREP_Config.c, with 64-bit arithmetic that wraps.
*/
module ConfigSize {
  import opened CText
  import Bits

  datatype Error = EInval | ERange | EOverflow

  /** A number and where it ended. */
  datatype Parsed = Number(number: nat, end: nat) | Failed(error: Error)

  datatype Sized = Accepted(size: nat) | Rejected(error: Error)

  // ------------------------------------------------------------------ parse_uint64

  datatype Wrapped = Value(value: nat) | Overflow

  /** What a 64-bit word keeps of a number. */
  function Word64(n: nat): (w: nat)
    ensures w < 0x1_0000_0000_0000_0000
    ensures n < 0x1_0000_0000_0000_0000 ==> w == n
  {
    if n < 0x1_0000_0000_0000_0000 then n else Word64(n - 0x1_0000_0000_0000_0000)
  }

  lemma {:induction false} Word64IsModulo(n: nat)
    ensures Word64(n) == n % 0x1_0000_0000_0000_0000
  {
    if n >= 0x1_0000_0000_0000_0000 {
      Word64IsModulo(n - 0x1_0000_0000_0000_0000);
    }
  }

  /** One digit more; only a result that got smaller is noticed. */
  function AddDigit(w: nat, digit: nat): Wrapped
  {
    var n := Word64(10 * w + digit);
    if n < w then Overflow else Value(n)
  }

  function WrappedDecimal(digits: string): Wrapped
    requires AllDigits(digits)
  {
    if digits == [] then Value(0)
    else
      match WrappedDecimal(digits[..|digits| - 1])
      case Overflow => Overflow
      case Value(w) => AddDigit(w, DigitValue(digits[|digits| - 1]))
  }

  function Uint64(s: string): Parsed
  {
    var start := SpaceEnd(s, 0);
    var end := DigitsEnd(s, start);
    match WrappedDecimal(s[start..end])
    case Overflow => Failed(ERange)
    case Value(n) => if end == start then Failed(EInval) else Number(n, end)
  }

  /** `parse_uint64`. */
  method ParseUint64(s: string) returns (r: Parsed)
    ensures r == Uint64(s)
  {
    var start := SkipSpace(s, 0);
    var fits, number, end := ParseDigits(s, start);
    if !fits {
      return Failed(ERange);
    }
    if end == start {
      return Failed(EInval);
    }
    return Number(number, end);
  }

  /** The loop of `parse_uint64`. */
  method ParseDigits(s: string, start: nat) returns (fits: bool, number: nat, i: nat)
    requires start <= |s|
    ensures fits <==> WrappedDecimal(s[start..DigitsEnd(s, start)]) != Overflow
    ensures fits ==> i == DigitsEnd(s, start) && WrappedDecimal(s[start..i]) == Value(number)
  {
    fits, number, i := true, 0, start;
    while At(s, i) != '\0' && IsDigit(At(s, i))
      invariant start <= i <= |s| && DigitsEnd(s, i) == DigitsEnd(s, start)
      invariant AllDigits(s[start..i]) && WrappedDecimal(s[start..i]) == Value(number)
      decreases |s| - i
    {
      var newNumber := NewNumber(number, s[i]);
      DigitStep(s, start, i, number);
      if newNumber < number {
        fits := false;
        return;
      }
      number := newNumber;
      i := i + 1;
    }
  }

  function NewNumber(number: nat, c: char): nat
    requires IsDigit(c)
  {
    Word64(10 * number + DigitValue(c))
  }

  lemma WrappedSnoc(digits: string, c: char)
    requires AllDigits(digits) && IsDigit(c)
    ensures AllDigits(digits + [c])
    ensures WrappedDecimal(digits + [c]) ==
            match WrappedDecimal(digits)
            case Overflow => Overflow
            case Value(w) => AddDigit(w, DigitValue(c))
  {
    assert (digits + [c])[..|digits|] == digits;
  }

  lemma DigitStep(s: string, start: nat, i: nat, number: nat)
    requires start <= i < |s| && IsDigit(s[i]) && DigitsEnd(s, i) == DigitsEnd(s, start)
    requires AllDigits(s[start..i]) && WrappedDecimal(s[start..i]) == Value(number)
    ensures var after := i + 1;
            && AllDigits(s[start..after]) && DigitsEnd(s, after) == DigitsEnd(s, start)
            && WrappedDecimal(s[start..after]) == AddDigit(number, DigitValue(s[i]))
            && (AddDigit(number, DigitValue(s[i])) == Overflow ==>
                  WrappedDecimal(s[start..DigitsEnd(s, start)]) == Overflow)
  {
    var digits, all := s[start..i + 1], s[start..DigitsEnd(s, start)];
    assert digits == s[start..i] + [s[i]];
    WrappedSnoc(s[start..i], s[i]);
    assert all[..i + 1 - start] == digits;
    if WrappedDecimal(digits) == Overflow {
      OverflowStays(all, i + 1 - start);
    }
  }

  /** Once the check fires, more digits do not matter. */
  lemma {:induction false} OverflowStays(digits: string, n: nat)
    requires AllDigits(digits) && n <= |digits| && WrappedDecimal(digits[..n]) == Overflow
    ensures WrappedDecimal(digits) == Overflow
  {
    if n == |digits| {
      assert digits[..n] == digits;
    } else {
      var front := digits[..|digits| - 1];
      assert front[..n] == digits[..n];
      OverflowStays(front, n);
    }
  }

  /** What is accepted is the number modulo 2^64. */
  lemma {:induction false} WrappedIsModulo(digits: string)
    requires AllDigits(digits) && WrappedDecimal(digits).Value?
    ensures WrappedDecimal(digits).value == Decimal(digits) % 0x1_0000_0000_0000_0000
  {
    if digits != [] {
      var front := digits[..|digits| - 1];
      WrappedIsModulo(front);
      var w, d := WrappedDecimal(front).value, DigitValue(digits[|digits| - 1]);
      ModuloStep(Decimal(front), w, d);
      Word64IsModulo(10 * w + d);
    }
  }

  lemma ModuloStep(n: nat, w: nat, d: nat)
    requires w == n % 0x1_0000_0000_0000_0000
    ensures (10 * w + d) % 0x1_0000_0000_0000_0000 == (10 * n + d) % 0x1_0000_0000_0000_0000
  {
    var q := n / 0x1_0000_0000_0000_0000;
    assert 10 * n + d == (10 * w + d) + 10 * q * 0x1_0000_0000_0000_0000;
  }

  /** Numbers below 2^64 are read exactly; the check fires on none of their prefixes. */
  lemma {:induction false} SmallIsExact(digits: string)
    requires AllDigits(digits) && Decimal(digits) < 0x1_0000_0000_0000_0000
    ensures WrappedDecimal(digits) == Value(Decimal(digits))
  {
    if digits != [] {
      SmallIsExact(digits[..|digits| - 1]);
    }
  }

  /** A number that is accepted is read exactly if and only if it is below 2^64. */
  lemma AcceptedIsExact(digits: string)
    requires AllDigits(digits) && WrappedDecimal(digits).Value?
    ensures WrappedDecimal(digits).value == Decimal(digits) <==> Decimal(digits) < 0x1_0000_0000_0000_0000
  {
    WrappedIsModulo(digits);
    if Decimal(digits) < 0x1_0000_0000_0000_0000 {
      SmallIsExact(digits);
    }
  }

  /** With one more zero, 3 * 10^18 becomes a larger, wrong number. */
  lemma WrapUnnoticed(front: string)
    requires AllDigits(front) && Decimal(front) == 3_000_000_000_000_000_000
    ensures AllDigits(front + "0") && Decimal(front + "0") == 30_000_000_000_000_000_000
    ensures WrappedDecimal(front + "0") == Value(11_553_255_926_290_448_384)
  {
    SmallIsExact(front);
    assert (front + "0")[..|front|] == front;
    Word64IsModulo(30_000_000_000_000_000_000);
  }

  // ------------------------------------------------------------------ parse_size

  /** 1024 to the given power. */
  function Scale(power: nat): nat
  {
    if power == 0 then 1 else 1024 * Scale(power - 1)
  }

  /** The power of 1024 that a unit letter, upper or lower case, stands for. */
  function Power(c: char): nat
  {
    match ToUpper(c)
    case 'K' => 1
    case 'M' => 2
    case 'G' => 3
    case 'T' => 4
    case 'P' => 5
    case 'E' => 6
    case _ => 0
  }

  predicate IsByte(c: char)
  {
    ToUpper(c) == 'B'
  }

  /** The end of the unit at i: a letter of its own, then at most one B; or one B; or nothing. */
  function UnitEnd(s: string, i: nat): (e: nat)
    requires i <= |s|
    ensures i <= e <= |s|
  {
    var afterScale := if Power(At(s, i)) > 0 then i + 1 else i;
    if IsByte(At(s, afterScale)) then afterScale + 1 else afterScale
  }

  function Scaled(n: nat, power: nat): Sized
  {
    var product := Word64(n * Scale(power));
    if product < n then Rejected(EOverflow) else Accepted(product)
  }

  function Size(s: string): Sized
  {
    match Uint64(s)
    case Failed(error) => Rejected(error)
    case Number(n, end) =>
      var unit := SpaceEnd(s, end);
      if unit < |s| && Power(s[unit]) == 0 && !IsByte(s[unit]) then Rejected(EInval)
      else if SpaceEnd(s, UnitEnd(s, unit)) != |s| then Rejected(EInval)
      else Scaled(n, Power(At(s, unit)))
  }

  /** The switch with its fall-through cases: every unit multiplies once more than the next smaller. */
  method ScaleFactor(unit: char) returns (scale: nat)
    ensures scale == Scale(Power(unit))
  {
    scale := 1;
    var u := ToUpper(unit);
    if u == 'E' {
      scale := scale * 1024;
    }
    if u == 'E' || u == 'P' {
      scale := scale * 1024;
    }
    if u == 'E' || u == 'P' || u == 'T' {
      scale := scale * 1024;
    }
    if u == 'E' || u == 'P' || u == 'T' || u == 'G' {
      scale := scale * 1024;
    }
    if u == 'E' || u == 'P' || u == 'T' || u == 'G' || u == 'M' {
      scale := scale * 1024;
    }
    if u == 'E' || u == 'P' || u == 'T' || u == 'G' || u == 'M' || u == 'K' {
      scale := scale * 1024;
    }
    ScaleValues();
  }

  lemma ScaleValues()
    ensures Scale(0) == 1 && Scale(1) == 0x400 && Scale(2) == 0x10_0000 && Scale(3) == 0x4000_0000
    ensures Scale(4) == 0x100_0000_0000 && Scale(5) == 0x4_0000_0000_0000 && Scale(6) == 0x1000_0000_0000_0000
  {
    assert Scale(1) == 1024 * Scale(0);
    assert Scale(2) == 1024 * Scale(1);
    assert Scale(3) == 1024 * Scale(2);
    assert Scale(4) == 1024 * Scale(3);
    assert Scale(5) == 1024 * Scale(4);
    assert Scale(6) == 1024 * Scale(5);
  }

  /** `parse_size`. */
  method ParseSize(s: string) returns (r: Sized)
    requires CString(s)
    ensures r == Size(s)
  {
    var parsed := ParseUint64(s);
    if parsed.Failed? {
      return Rejected(parsed.error);
    }
    var number := parsed.number;
    var unit := SkipSpace(s, parsed.end);
    var known, scale, i := ParseUnit(s, unit);
    if !known {
      return Rejected(EInval);
    }
    i := SkipSpace(s, i);
    if At(s, i) != '\0' {
      return Rejected(EInval);
    }
    r := Scaling(number, scale, Power(At(s, unit)));
  }

  /** The middle of `parse_size`: the unit. The B is allowed only once. */
  method ParseUnit(s: string, start: nat) returns (known: bool, scale: nat, i: nat)
    requires CString(s) && start <= |s|
    ensures !known <==> start < |s| && Power(s[start]) == 0 && !IsByte(s[start])
    ensures known ==> scale == Scale(Power(At(s, start))) && i == UnitEnd(s, start)
  {
    known, scale, i := true, 1, start;
    var hasByteSuffix := false;
    var unit := At(s, i);
    if Power(unit) > 0 {
      scale := ScaleFactor(unit);
      i := i + 1;
    } else if ToUpper(unit) == 'B' {
      hasByteSuffix := true;
      i := i + 1;
    } else if unit != '\0' {
      known := false;
      return;
    }
    if !hasByteSuffix && ToUpper(At(s, i)) == 'B' {
      i := i + 1;
    }
  }

  /** The end of `parse_size`: the check for overflow and the multiplication. */
  method Scaling(number: nat, scale: nat, ghost power: nat) returns (r: Sized)
    requires scale == Scale(power)
    ensures r == Scaled(number, power)
  {
    if Word64(number * scale) < number {
      return Rejected(EOverflow);
    }
    r := Accepted(Word64(number * scale));
  }

  // ------------------------------------------------------------------ the texts that are sizes

  /** A unit: nothing, a B, one of the letters, or a letter and a B, in upper or lower case. */
  ghost predicate Unit(unit: string)
  {
    || unit == []
    || (|unit| == 1 && (IsByte(unit[0]) || Power(unit[0]) > 0))
    || (|unit| == 2 && Power(unit[0]) > 0 && IsByte(unit[1]))
  }

  function UnitPower(unit: string): nat
  {
    if unit == [] then 0 else Power(unit[0])
  }

  /** White space, a number, white space, a unit, white space. */
  ghost predicate SizeText(lead: string, digits: string, gap: string, unit: string, trail: string)
  {
    && AllSpace(lead) && AllSpace(gap) && AllSpace(trail)
    && digits != [] && AllDigits(digits) && Unit(unit)
  }

  function SizeOf(digits: string, unit: string): Sized
    requires AllDigits(digits)
  {
    match WrappedDecimal(digits)
    case Overflow => Rejected(ERange)
    case Value(n) => Scaled(n, UnitPower(unit))
  }

  lemma {:induction false} NumberOf(lead: string, digits: string, rest: string)
    requires AllSpace(lead) && AllDigits(digits) && digits != [] && (rest != [] ==> !IsDigit(rest[0]))
    ensures var s := lead + digits + rest;
            Uint64(s) == match WrappedDecimal(digits)
                         case Overflow => Failed(ERange)
                         case Value(n) => Number(n, |lead| + |digits|)
  {
    var s, start, end := lead + digits + rest, |lead|, |lead| + |digits|;
    assert s[0..start] == lead && s[start] == digits[0] && s[start..end] == digits;
    SpaceEndAt(s, 0, start);
    assert end < |s| ==> s[end] == rest[0];
    DigitsEndAt(s, start, end);
  }

  lemma UnitOf(s: string, i: nat, gap: string, unit: string, trail: string)
    requires i <= |s| && s[i..] == gap + unit + trail
    requires AllSpace(gap) && AllSpace(trail) && Unit(unit)
    ensures var u := SpaceEnd(s, i);
            && (unit == [] ==> u == |s|)
            && (unit != [] ==> u == i + |gap| && s[u] == unit[0] && SpaceEnd(s, u + |unit|) == |s|)
            && (unit != [] ==> UnitEnd(s, u) == u + |unit|)
  {
    var u := i + |gap|;
    assert s[i..u] == gap && s[u..] == unit + trail;
    if unit == [] {
      assert s[i..] == gap + trail;
      assert s[i..|s|] == s[i..];
      SpaceEndAt(s, i, |s|);
    } else {
      assert s[u] == s[u..][0] == unit[0];
      SpaceEndAt(s, i, u);
      var v := u + |unit|;
      assert s[v..|s|] == trail;
      SpaceEndAt(s, v, |s|);
      assert |unit| == 2 ==> s[u + 1] == s[u..][1] == unit[1];
      assert v < |s| ==> s[v] == trail[0];
    }
  }

  /** Every text of that form is read as its number and unit say. */
  lemma SizeTextAccepted(lead: string, digits: string, gap: string, unit: string, trail: string)
    requires SizeText(lead, digits, gap, unit, trail)
    ensures Size(lead + digits + gap + unit + trail) == SizeOf(digits, unit)
  {
    var s, rest := lead + digits + gap + unit + trail, gap + unit + trail;
    assert s == lead + digits + rest;
    if rest != [] {
      BehindNumber(gap, unit, trail);
    }
    NumberOf(lead, digits, rest);
    var end := |lead| + |digits|;
    assert s[end..] == rest;
    UnitOf(s, end, gap, unit, trail);
  }

  lemma BehindNumber(gap: string, unit: string, trail: string)
    requires AllSpace(gap) && AllSpace(trail) && Unit(unit) && gap + unit + trail != []
    ensures !IsDigit((gap + unit + trail)[0])
  {
    var rest := gap + unit + trail;
    assert rest[0] == if gap != [] then gap[0] else if unit != [] then unit[0] else trail[0];
  }

  /** Only texts of that form are accepted, or rejected for the product. */
  lemma AcceptedIsSizeText(s: string)
    returns (lead: string, digits: string, gap: string, unit: string, trail: string)
    requires Size(s).Accepted? || Size(s) == Rejected(EOverflow)
    ensures SizeText(lead, digits, gap, unit, trail) && s == lead + digits + gap + unit + trail
    ensures Size(s) == SizeOf(digits, unit)
  {
    var start := SpaceEnd(s, 0);
    var end := DigitsEnd(s, start);
    var u := SpaceEnd(s, end);
    var v := UnitEnd(s, u);
    lead, digits, gap, unit, trail := s[..start], s[start..end], s[end..u], s[u..v], s[v..];
    assert s[0..start] == lead && s[v..|s|] == trail;
    SpaceRun(s, 0);
    SpaceRun(s, end);
    SpaceRun(s, v);
    UnitAt(s, u);
    Pieces(s, start, end, u, v);
  }

  ghost predicate IsSizeText(s: string)
  {
    exists lead, digits, gap, unit, trail :: SizeTextOf(s, lead, digits, gap, unit, trail)
  }

  ghost predicate SizeTextOf(s: string, lead: string, digits: string, gap: string, unit: string, trail: string)
  {
    SizeText(lead, digits, gap, unit, trail) && s == lead + digits + gap + unit + trail
  }

  /** The digits that a value begins with, behind white space. */
  function LeadingDigits(s: string): (digits: string)
    ensures AllDigits(digits)
  {
    s[SpaceEnd(s, 0)..DigitsEnd(s, SpaceEnd(s, 0))]
  }

  /** Why a value is rejected: ERange exactly if the check in the number fires, EInval exactly if it does not
      and the value is no size at all, and EOverflow only for sizes. */
  lemma RejectedBecause(s: string)
    ensures Size(s) == Rejected(ERange) <==> WrappedDecimal(LeadingDigits(s)) == Overflow
    ensures Size(s) == Rejected(EInval) <==> WrappedDecimal(LeadingDigits(s)).Value? && !IsSizeText(s)
    ensures Size(s) == Rejected(EOverflow) ==> IsSizeText(s)
  {
    if Size(s).Accepted? || Size(s) == Rejected(EOverflow) {
      var lead, digits, gap, unit, trail := AcceptedIsSizeText(s);
      assert SizeTextOf(s, lead, digits, gap, unit, trail);
    }
    if IsSizeText(s) {
      var lead, digits, gap, unit, trail :| SizeTextOf(s, lead, digits, gap, unit, trail);
      SizeTextAccepted(lead, digits, gap, unit, trail);
    }
  }

  lemma UnitAt(s: string, u: nat)
    requires u <= |s| && UnitEnd(s, u) <= |s|
    requires u < |s| ==> Power(s[u]) > 0 || IsByte(s[u])
    ensures Unit(s[u..UnitEnd(s, u)]) && UnitPower(s[u..UnitEnd(s, u)]) == Power(At(s, u))
  {
  }

  lemma Pieces(s: string, a: nat, b: nat, c: nat, d: nat)
    requires a <= b <= c <= d <= |s|
    ensures s == s[..a] + s[a..b] + s[b..c] + s[c..d] + s[d..]
  {
    assert s[..b] == s[..a] + s[a..b];
    assert s[..c] == s[..b] + s[b..c];
    assert s[..d] == s[..c] + s[c..d];
  }

  /** An accepted size is the written one if and only if that is below 2^64. */
  lemma SizeExact(digits: string, unit: string)
    requires AllDigits(digits) && SizeOf(digits, unit).Accepted?
    ensures SizeOf(digits, unit).size == Decimal(digits) * Scale(UnitPower(unit)) <==>
            Decimal(digits) * Scale(UnitPower(unit)) < 0x1_0000_0000_0000_0000
  {
    var n, power := Decimal(digits), UnitPower(unit);
    var product := n * Scale(power);
    if product < 0x1_0000_0000_0000_0000 {
      NotSmaller(n, power);
      SmallIsExact(digits);
      ScaledExact(n, power, product);
    } else {
      SizeIsWord(WrappedDecimal(digits).value, power);
    }
  }

  lemma NotSmaller(n: nat, power: nat)
    ensures n <= n * Scale(power)
  {
    ScalePositive(power);
    assert n * 1 <= n * Scale(power);
  }

  lemma SizeIsWord(n: nat, power: nat)
    requires Scaled(n, power).Accepted?
    ensures Scaled(n, power).size < 0x1_0000_0000_0000_0000
  {
  }

  lemma {:induction false} ScalePositive(power: nat)
    ensures Scale(power) >= 1
  {
    if power > 0 {
      ScalePositive(power - 1);
    }
  }

  // ------------------------------------------------------------------ dump_size

  const SUFFIXES: string := " KMGTPE"

  /** The number of times 1024 can be divided out, at most as often as there are suffixes. */
  function Divisions(value: nat, room: nat): (k: nat)
    ensures k <= room
  {
    if room == 0 || value % 1024 != 0 then 0 else 1 + Divisions(value / 1024, room - 1)
  }

  /** Nothing is lost by the divisions. */
  lemma DivisionsExact(value: nat, room: nat)
    ensures Scale(Divisions(value, room)) >= 1
    ensures value == value / Scale(Divisions(value, room)) * Scale(Divisions(value, room))
  {
    var k := Divisions(value, room);
    ScalePositive(k);
    var q := Quotient(value, room);
    Bits.RemainderUnique(value, Scale(k), q, 0);
  }

  lemma {:induction false} Quotient(value: nat, room: nat) returns (q: nat)
    ensures value == q * Scale(Divisions(value, room))
  {
    if room > 0 && value % 1024 == 0 {
      var k := Divisions(value / 1024, room - 1);
      q := Quotient(value / 1024, room - 1);
      assert q * (1024 * Scale(k)) == 1024 * (q * Scale(k));
    } else {
      q := value;
    }
  }

  function SizeValueText(value: nat): string
  {
    var k := Divisions(value, 6);
    ScalePositive(k);
    DecimalText(value / Scale(k)) + Suffix(k)
  }

  /** `dump_size`, printing to a string. */
  method DumpSize(name: string, value: nat) returns (out: string)
    ensures out == name + "=" + SizeValueText(value) + "\n"
  {
    var v, suffix := value, 0;
    ScaleValues();
    while v % 1024 == 0 && suffix + 1 < |SUFFIXES|
      invariant suffix <= 6
      invariant suffix + Divisions(v, 6 - suffix) == Divisions(value, 6)
      invariant Scale(suffix) >= 1 && v == value / Scale(suffix)
      decreases 6 - suffix
    {
      NextQuotient(value, suffix);
      v := v / 1024;
      suffix := suffix + 1;
    }
    out := name + "=" + DecimalText(v) + (if SUFFIXES[suffix] == ' ' then "" else [SUFFIXES[suffix]]) + "\n";
  }

  lemma NextQuotient(value: nat, k: nat)
    ensures Scale(k) >= 1 && Scale(k + 1) >= 1
    ensures value / Scale(k) / 1024 == value / Scale(k + 1)
  {
    ScalePositive(k);
    ScalePositive(k + 1);
    DivideTwice(value, Scale(k));
  }

  lemma DivideTwice(value: nat, d: nat)
    requires d >= 1
    ensures value / d / 1024 == value / (1024 * d)
  {
    var x, rest := value / d, value % d;
    var q, r := x / 1024, x % 1024;
    Regroup(d, q, r, rest);
    Bits.RemainderUnique(value, 1024 * d, q, d * r + rest);
  }

  lemma Regroup(d: nat, q: nat, r: nat, rest: nat)
    requires r < 1024 && rest < d
    ensures d * (1024 * q + r) + rest == (1024 * d) * q + (d * r + rest)
    ensures d * r + rest < 1024 * d
  {
    assert d * (1024 * q + r) == d * (1024 * q) + d * r;
    assert d * (1024 * q) == (1024 * d) * q;
    assert d * r <= d * 1023;
  }

  lemma ScaledExact(n: nat, power: nat, value: nat)
    requires value == n * Scale(power) < 0x1_0000_0000_0000_0000
    ensures n <= value && Scaled(n, power) == Accepted(value)
  {
    NotSmaller(n, power);
  }

  function Suffix(k: nat): string
    requires k <= 6
  {
    if k == 0 then "" else [SUFFIXES[k]]
  }

  lemma SuffixPower(k: nat)
    requires k <= 6
    ensures Unit(Suffix(k)) && UnitPower(Suffix(k)) == k
  {
  }

  /** A value is printed with the largest unit that divides it; 0 and multiples of 1024^7 with the last one. */
  lemma LargestUnitPrinted(value: nat, q: nat, k: nat)
    requires k <= 6 && value == q * Scale(k) && (k < 6 ==> q % 1024 != 0)
    ensures SizeValueText(value) == DecimalText(q) + (if k == 0 then "" else ["-KMGTPE"[k]])
  {
    DivisionsAre(value, 6, q, k);
    ScalePositive(k);
    Bits.RemainderUnique(value, Scale(k), q, 0);
  }

  lemma {:induction false} DivisionsAre(value: nat, room: nat, q: nat, k: nat)
    requires k <= room && value == q * Scale(k) && (k < room ==> q % 1024 != 0)
    ensures Divisions(value, room) == k
  {
    if k > 0 {
      var next := q * Scale(k - 1);
      assert value == 1024 * next;
      DivisionsAre(next, room - 1, q, k - 1);
    }
  }

  /** Every 64-bit value survives being printed and parsed, and no check fires on the way. */
  lemma SizeRoundTrip(value: nat)
    requires value < 0x1_0000_0000_0000_0000
    ensures Size(SizeValueText(value)) == Accepted(value)
  {
    var k := Divisions(value, 6);
    DivisionsExact(value, 6);
    var n := value / Scale(k);
    ScaledExact(n, k, value);
    NumberTextAccepted(n, k);
  }

  lemma {:induction false} NumberAndUnit(n: nat, unit: string)
    requires n < 0x1_0000_0000_0000_0000 && Unit(unit)
    ensures Size(DecimalText(n) + unit) == Scaled(n, UnitPower(unit))
  {
    var digits := DecimalText(n);
    DecimalRoundTrip(n);
    SmallIsExact(digits);
    SizeTextAccepted("", digits, "", unit, "");
    PlainText(digits, unit);
  }

  lemma PlainText(digits: string, unit: string)
    ensures "" + digits + "" + unit + "" == digits + unit
  {
    assert "" + digits + "" == digits;
  }

  lemma NumberTextAccepted(n: nat, k: nat)
    requires n < 0x1_0000_0000_0000_0000 && k <= 6
    ensures Size(DecimalText(n) + Suffix(k)) == Scaled(n, k)
  {
    SuffixPower(k);
    NumberAndUnit(n, Suffix(k));
  }

  // ------------------------------------------------------------------ the units

  const UPPER_UNITS: string := "KMGTPE"
  const LOWER_UNITS: string := "kmgtpe"

  lemma UnitLetters(k: nat)
    requires k < 6
    ensures Power(UPPER_UNITS[k]) == Power(LOWER_UNITS[k]) == k + 1
  {
    assert Power('K') == Power('k') == 1 && Power('M') == Power('m') == 2 && Power('G') == Power('g') == 3;
    assert Power('T') == Power('t') == 4 && Power('P') == Power('p') == 5 && Power('E') == Power('e') == 6;
    assert k == 0 || k == 1 || k == 2 || k == 3 || k == 4 || k == 5;
  }

  /** A number with one of the letters k, m, g, t, p and e, in either case, and perhaps a b behind it, means
      the number times that power of 1024; with a b alone it means the number. */
  lemma {:induction false} UnitMeans(n: nat, k: nat, letter: char, b: string)
    requires n < 0x1_0000_0000_0000_0000 && k < 6 && (letter == UPPER_UNITS[k] || letter == LOWER_UNITS[k])
    requires b == "" || b == "B" || b == "b"
    ensures Size(DecimalText(n) + ([letter] + b)) == Scaled(n, k + 1)
    ensures Size(DecimalText(n) + b) == Accepted(n)
  {
    LetterIsUnit(k, letter, b);
    NumberAndUnit(n, [letter] + b);
    NumberAndUnit(n, b);
    assert Scale(0) == 1;
    ScaledExact(n, 0, n);
  }

  lemma LetterIsUnit(k: nat, letter: char, b: string)
    requires k < 6 && (letter == UPPER_UNITS[k] || letter == LOWER_UNITS[k])
    requires b == "" || b == "B" || b == "b"
    ensures Unit([letter] + b) && UnitPower([letter] + b) == k + 1
    ensures Unit(b) && UnitPower(b) == 0
  {
    UnitLetters(k);
    assert b != "" ==> b[0] == 'B' || b[0] == 'b';
  }

  /** The default for the total memory, 16000k. */
  lemma DefaultTotalMemory()
    ensures Size("16000k") == Accepted(16_384_000)
  {
    var text := DecimalText(16000);
    SixteenThousand();
    UnitMeans(16000, 0, 'k', "");
    assert text + (['k'] + "") == "16000k";
    SixteenMillion(16000);
  }

  lemma SixteenThousand()
    ensures DecimalText(16000) == "16000"
  {
    assert DecimalText(1) == "1" && DecimalText(16) == "16" && DecimalText(160) == "160";
    assert DecimalText(1600) == "1600";
  }

  lemma SixteenMillion(n: nat)
    requires n == 16000
    ensures Scaled(n, 1) == Accepted(16_384_000)
  {
    ScaleValues();
  }

  // ------------------------------------------------------------------ wraps that no check notices

  lemma DigitsText(digits: string, n: nat)
    requires AllDigits(digits) && digits != [] && WrappedDecimal(digits) == Value(n) && n < 0x1_0000_0000_0000_0000
    ensures Size(digits) == Accepted(n)
  {
    SizeTextAccepted("", digits, "", "", "");
    assert "" + digits + "" + "" + "" == digits;
    ScaleValues();
  }

  /** The check in the number misses some wraps: 30000000000000000000 is accepted as another number. */
  lemma MissedWrap()
    ensures AllDigits(DecimalText(3_000_000_000_000_000_000) + "0")
    ensures Decimal(DecimalText(3_000_000_000_000_000_000) + "0") == 30_000_000_000_000_000_000
    ensures Size(DecimalText(3_000_000_000_000_000_000) + "0") == Accepted(11_553_255_926_290_448_384)
  {
    DecimalRoundTrip(3_000_000_000_000_000_000);
    WrapUnnoticed(DecimalText(3_000_000_000_000_000_000));
    DigitsText(DecimalText(3_000_000_000_000_000_000) + "0", 11_553_255_926_290_448_384);
  }

  lemma ScaleUnnoticed()
    ensures Scaled(19_140_298_416_324_608, 1) == Accepted(0x1000_0000_0000_0000)
  {
    ScaleValues();
    Word64IsModulo(19_140_298_416_324_608 * 1024);
  }

  lemma KilobyteText(n: nat)
    requires n < 0x1_0000_0000_0000_0000
    ensures Size(DecimalText(n) + "K") == Scaled(n, 1)
  {
    NumberTextAccepted(n, 1);
    assert Suffix(1) == "K";
  }

  /** The check behind the unit misses some, too: 19140298416324608K is accepted as 2^60. */
  lemma MissedScale()
    ensures Size(DecimalText(19_140_298_416_324_608) + "K") == Accepted(0x1000_0000_0000_0000)
  {
    KilobyteText(19_140_298_416_324_608);
    ScaleUnnoticed();
  }
}
