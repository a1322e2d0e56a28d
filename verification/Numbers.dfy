// Number printing: itoa, strrev and printf's number cases of student-distrib/lib.c,
// and the user library's copies in syscalls/ece391support.c.
module Numbers {
  import opened CString
  import opened Arithmetic

  const WORD := 0x1_0000_0000
  const MINUS: byte := 45
  const ZERO: byte := 48

  type u32 = x: int | 0 <= x < 0x1_0000_0000
  type i32 = x: int | -0x8000_0000 <= x < 0x8000_0000
  type Radix = r: int | 2 <= r <= 36 witness 10

  // ---- Numerals and their values ----

  // The lookup table: 0..9, then A..Z.
  function Digit(d: nat): byte
    requires d < 36
  { if d < 10 then ZERO + d else 65 + (d - 10) }

  function DigitValue(c: byte): int { if c <= 57 then c as int - 48 else c as int - 55 }

  ghost predicate IsDigit(c: byte, radix: Radix) {
    0 <= DigitValue(c) < radix && c == Digit(DigitValue(c))
  }

  // Reading a numeral: every digit counts radix times the one after it.
  ghost function Value(s: seq<byte>, radix: Radix): int {
    if s == [] then 0 else radix * Value(s[..|s| - 1], radix) + DigitValue(s[|s| - 1])
  }

  // Writing one.
  ghost function Numeral(v: nat, radix: Radix): (s: seq<byte>)
    ensures s != []
    decreases v
  {
    if v < radix then [Digit(v)]
    else
      QuotientIsSmaller(v, radix);
      Division(v, radix);
      Numeral(v / radix, radix) + [Digit(v % radix)]
  }

  ghost predicate AllDigits(s: seq<byte>, radix: Radix) {
    forall i {:trigger s[i]} :: 0 <= i < |s| ==> IsDigit(s[i], radix)
  }

  // Digits only, and no zero in front unless it is the only one.
  ghost predicate Canonical(s: seq<byte>, radix: Radix) {
    s != [] && AllDigits(s, radix) && (|s| > 1 ==> s[0] != ZERO)
  }

  lemma {:induction false} NumeralReadsBack(v: nat, radix: Radix)
    ensures Value(Numeral(v, radix), radix) == v
    ensures Canonical(Numeral(v, radix), radix) && (v > 0 ==> Numeral(v, radix)[0] != ZERO)
    decreases v
  {
    var s := Numeral(v, radix);
    if v < radix {
      assert IsDigit(s[0], radix);
      assert Value([], radix) == 0;
      assert s[..0] == [];
    } else {
      QuotientIsSmaller(v, radix);
      Division(v, radix);
      var q, d := v / radix, v % radix;
      assert q > 0;
      NumeralReadsBack(q, radix);
      var t := Numeral(q, radix);
      assert s[..|s| - 1] == t && s[|s| - 1] == Digit(d);
      assert IsDigit(Digit(d), radix);
    }
  }

  lemma ValueOfMore(s: seq<byte>, c: byte, radix: Radix)
    ensures Value(s + [c], radix) == radix * Value(s, radix) + DigitValue(c)
  {
    assert (s + [c])[..|s|] == s;
  }

  lemma {:induction false} ValueIsPositive(s: seq<byte>, radix: Radix)
    requires AllDigits(s, radix)
    ensures Value(s, radix) >= 0
    ensures s != [] && s[0] != ZERO ==> Value(s, radix) > 0
  {
    if s != [] {
      var t, c := s[..|s| - 1], s[|s| - 1];
      assert s == t + [c];
      assert IsDigit(c, radix);
      assert AllDigits(t, radix) by { assert forall i {:trigger t[i]} :: 0 <= i < |t| ==> t[i] == s[i]; }
      hide AllDigits;
      ValueIsPositive(t, radix);
      ValueOfMore(t, c, radix);
      hide Value;
      ProductGrows(radix, Value(t, radix));
      if t == [] { assert c == ZERO || DigitValue(c) > 0; } else { assert t[0] == s[0]; }
    }
  }

  lemma NumeralOfMore(q: nat, d: nat, radix: Radix)
    requires q > 0 && d < radix
    ensures radix * q + d >= 0 && Numeral(radix * q + d, radix) == Numeral(q, radix) + [Digit(d)]
  {
    ProductGrows(radix, q);
    DivideBack(q, radix, d);
    assert radix * q >= radix by { MultipleIsFar(q, radix); }
  }

  lemma CanonicalPrefix(t: seq<byte>, c: byte, radix: Radix)
    requires Canonical(t + [c], radix)
    ensures IsDigit(c, radix)
    ensures t != [] ==> Canonical(t, radix) && t[0] != ZERO
  {
    var s := t + [c];
    assert IsDigit(s[|t|], radix);
    assert forall i {:trigger t[i]} :: 0 <= i < |t| ==> t[i] == s[i];
  }

  lemma OneDigit(c: byte, radix: Radix)
    requires IsDigit(c, radix)
    ensures Value([c], radix) == DigitValue(c) >= 0 && Numeral(DigitValue(c), radix) == [c]
  {
    ValueOfMore([], c, radix);
    assert [] + [c] == [c];
  }

  lemma AppendedDigit(t: seq<byte>, c: byte, radix: Radix)
    requires IsDigit(c, radix) && Value(t, radix) > 0 && Numeral(Value(t, radix), radix) == t
    ensures Value(t + [c], radix) >= 0 && Numeral(Value(t + [c], radix), radix) == t + [c]
  {
    hide Value, Numeral;
    ValueOfMore(t, c, radix);
    NumeralOfMore(Value(t, radix), DigitValue(c), radix);
  }

  // And back: a canonical numeral is the one written for its value.
  lemma {:induction false} ValueWritesBack(s: seq<byte>, radix: Radix)
    requires Canonical(s, radix)
    ensures Value(s, radix) >= 0 && Numeral(Value(s, radix), radix) == s
  {
    var t, c := s[..|s| - 1], s[|s| - 1];
    assert s == t + [c];
    CanonicalPrefix(t, c, radix);
    hide Value, Numeral;
    if t == [] {
      OneDigit(c, radix);
    } else {
      ValueWritesBack(t, radix);
      ValueIsPositive(t, radix) by { assert AllDigits(t, radix); }
      AppendedDigit(t, c, radix);
    }
  }

  // ---- How long a numeral is ----

  ghost function Power(radix: Radix, n: nat): int { if n == 0 then 1 else radix * Power(radix, n - 1) }

  // At most n digits exactly when below radix to the n.
  lemma {:induction false} NumeralLength(v: nat, radix: Radix, n: nat)
    requires n > 0
    ensures |Numeral(v, radix)| <= n <==> v < Power(radix, n)
  {
    if v < radix {
      PowerIsPositive(radix, n - 1);
      MultipleIsFar(Power(radix, n - 1), radix);
    } else {
      var q, d := v / radix, v % radix;
      Division(v, radix);
      QuotientIsSmaller(v, radix);
      if n > 1 {
        NumeralLength(q, radix, n - 1);
        hide Numeral;
        BelowMultiple(q, d, radix, Power(radix, n - 1));
      }
    }
  }

  lemma {:induction false} PowerIsPositive(radix: Radix, n: nat)
    ensures Power(radix, n) >= 1
  {
    if n > 0 {
      PowerIsPositive(radix, n - 1);
      MultipleIsFar(Power(radix, n - 1), radix);
    }
  }

  // ---- In-place reversal ----

  ghost function Reversed(s: seq<byte>): seq<byte> { seq(|s|, i requires 0 <= i < |s| => s[|s| - 1 - i]) }

  lemma ReversedOfMore(s: seq<byte>, c: byte)
    ensures Reversed(s + [c]) == [c] + Reversed(s)
  {
  }

  lemma ReversedHas(s: seq<byte>, b: byte)
    requires Without(Reversed(s), b)
    ensures Without(s, b)
  {
    assert forall k {:trigger s[k]} :: 0 <= k < |s| ==> s[k] == Reversed(s)[|s| - 1 - k];
  }

  // The loop of both copies.
  method SwapInwards(s: array<byte>, at: nat, len: nat)
    requires at + len < s.Length
    modifies s
    ensures s[..] == Splice(old(s[..]), at, Reversed(old(s[at..at + len])))
  {
    ghost var before := s[..];
    ghost var word := s[at..at + len];
    var beg: int, end: int := 0, len - 1;
    while beg < end
      invariant 0 <= beg && end == len - 1 - beg && beg <= end + 2
      invariant forall k {:trigger s[k]} :: at + beg <= k <= at + end ==> s[k] == before[k]
      invariant forall k {:trigger s[k]} :: at <= k < at + beg || at + end < k < at + len ==>
        s[k] == word[len - 1 - (k - at)]
      invariant forall k {:trigger s[k]} :: 0 <= k < at || at + len <= k < s.Length ==> s[k] == before[k]
      decreases end - beg
    {
      var tmp := s[at + end];
      s[at + end] := s[at + beg];
      s[at + beg] := tmp;
      beg, end := beg + 1, end - 1;
    }
    IsSplice(before, at, Reversed(word), s[..]);
  }

  method Strrev(s: array<byte>, at: nat, ghost len: nat)
    requires at + len < s.Length && s[at + len] == NUL && Without(s[at..at + len], NUL)
    modifies s
    ensures s[..] == Splice(old(s[..]), at, Reversed(old(s[at..at + len])))
  {
    var length := Strlen(s, at, at + len);
    SwapInwards(s, at, length);
  }

  // ece391_strrev goes home early when there is nothing to swap.
  method UserStrrev(s: array<byte>, at: nat, ghost len: nat)
    requires at + len < s.Length && s[at + len] == NUL && Without(s[at..at + len], NUL)
    modifies s
    ensures s[..] == Splice(old(s[..]), at, Reversed(old(s[at..at + len])))
  {
    var length: int := Strlen(s, at, at + len);
    if length - 1 <= 0 {
      assert Reversed(s[at..at + len]) == s[at..at + len];
      IsSplice(s[..], at, s[at..at + len], s[..]);
      return;
    }
    SwapInwards(s, at, length);
  }

  // ---- itoa ----

  lemma NumeralHasNoNul(v: nat, radix: Radix)
    ensures Without(Numeral(v, radix), NUL)
  {
    NumeralReadsBack(v, radix);
    var s := Numeral(v, radix);
    forall k | 0 <= k < |s| ensures s[k] != NUL { assert IsDigit(s[k], radix); }
  }

  ghost function Digits(v: nat, radix: Radix): seq<byte> { if v == 0 then [] else Numeral(v, radix) }

  lemma DigitsStep(v: nat, radix: Radix)
    requires v > 0
    ensures v / radix >= 0 && v / radix < v && 0 <= v % radix < radix
    ensures Digits(v, radix) == Digits(v / radix, radix) + [Digit(v % radix)]
  {
    Division(v, radix);
    QuotientIsSmaller(v, radix);
    QuotientIsNatural(v, radix);
    if v < radix {
      SameQuotient(radix, 0, v, v / radix, v % radix);
    } else {
      assert v / radix != 0;
    }
  }

  lemma LowDigitsFirst(v: nat, low: seq<byte>, radix: Radix, text: seq<byte>)
    requires v > 0 && Digits(v, radix) + Reversed(low) == text
    ensures 0 <= v % radix < radix && 0 <= v / radix < v && |low| < |text|
    ensures Digits(v / radix, radix) + Reversed(low + [Digit(v % radix)]) == text
  {
    DigitsStep(v, radix);
    ReversedOfMore(low, Digit(v % radix));
  }

  // The digits of value, the lowest first.
  method WriteDigits(value: u32, buf: array<byte>, at: nat, radix: Radix) returns (p: nat)
    requires value > 0 && at + |Numeral(value, radix)| < buf.Length
    modifies buf
    ensures p == at + |Numeral(value, radix)| && Reversed(buf[at..p]) == Numeral(value, radix)
    ensures forall k {:trigger buf[k]} :: 0 <= k < at || p <= k < buf.Length ==> buf[k] == old(buf[k])
  {
    ghost var text := Numeral(value, radix);
    ghost var low: seq<byte> := [];
    assert Digits(value, radix) + Reversed(low) == text;
    var newval: nat := value;
    p := at;
    while newval > 0
      invariant at <= p <= at + |text| && low == buf[at..p]
      invariant Digits(newval, radix) + Reversed(low) == text
      invariant forall k {:trigger buf[k]} :: 0 <= k < at || p <= k < buf.Length ==> buf[k] == old(buf[k])
      decreases newval
    {
      hide *;
      LowDigitsFirst(newval, low, radix, text);
      var i: nat := newval % radix;
      buf[p] := Digit(i);
      low := low + [Digit(i)];
      p, newval := p + 1, newval / radix;
    }
  }

  // Everything but the reversal: the digits, the lowest first, and a terminator.
  method PutDigits(value: u32, buf: array<byte>, at: nat, radix: Radix)
    requires value > 0 && at + |Numeral(value, radix)| < buf.Length
    modifies buf
    ensures var n := |Numeral(value, radix)|;
      && buf[at + n] == NUL && Without(buf[at..at + n], NUL) && Reversed(buf[at..at + n]) == Numeral(value, radix)
      && forall k {:trigger buf[k]} :: 0 <= k < at || at + n < k < buf.Length ==> buf[k] == old(buf[k])
  {
    hide Numeral;
    var p := WriteDigits(value, buf, at, radix);
    buf[p] := NUL;
    NumeralHasNoNul(value, radix);
    ReversedHas(buf[at..p], NUL);
  }

  method Itoa(value: u32, buf: array<byte>, at: nat, radix: Radix)
    requires at + |Numeral(value, radix)| < buf.Length
    modifies buf
    ensures buf[..] == Splice(old(buf[..]), at, Numeral(value, radix) + [NUL])
  {
    ghost var before, text := buf[..], Numeral(value, radix);
    if value == 0 {
      buf[at], buf[at + 1] := ZERO, NUL;
      return;
    }
    hide Numeral, Reversed;
    PutDigits(value, buf, at, radix);
    Strrev(buf, at, |text|);
    IsSplice(before, at, text + [NUL], buf[..]);
  }

  // ece391_itoa: the same, with the other strrev.
  method UserItoa(value: u32, buf: array<byte>, at: nat, radix: Radix)
    requires at + |Numeral(value, radix)| < buf.Length
    modifies buf
    ensures buf[..] == Splice(old(buf[..]), at, Numeral(value, radix) + [NUL])
  {
    ghost var before, text := buf[..], Numeral(value, radix);
    if value == 0 {
      buf[at], buf[at + 1] := ZERO, NUL;
      return;
    }
    hide Numeral, Reversed;
    PutDigits(value, buf, at, radix);
    UserStrrev(buf, at, |text|);
    IsSplice(before, at, text + [NUL], buf[..]);
  }

  // ---- printf's number cases ----
  //
  // Each returns the string that the case hands to puts.

  ghost predicate IsCString(buf: seq<byte>, at: nat, text: seq<byte>) {
    at + |text| < |buf| && buf[at..at + |text|] == text && buf[at + |text|] == NUL && Without(text, NUL)
  }

  lemma CutAtNul(buf: seq<byte>, at: nat, text: seq<byte>)
    requires IsCString(buf, at, text)
    ensures at <= |buf| && CStr(buf[at..]) == text
  {
    assert buf[at..][..|text|] == text && buf[at..][|text|] == NUL;
    StringAtFront(buf[at..], text);
  }

  lemma SplicedString(before: seq<byte>, at: nat, text: seq<byte>, after: seq<byte>)
    requires at + |text| < |before| && after == Splice(before, at, text + [NUL]) && Without(text, NUL)
    ensures IsCString(after, at, text)
    ensures after[..at] == before[..at]
  {
    assert after[at..at + |text| + 1] == text + [NUL];
  }

  lemma WithFront(buf: seq<byte>, from: nat, at: nat, text: seq<byte>)
    requires from <= at && IsCString(buf, at, text) && Without(buf[from..at], NUL)
    ensures IsCString(buf, from, buf[from..at] + text)
  {
    assert buf[from..at + |text|] == buf[from..at] + text;
  }

  // A numeral written behind some bytes that are already there.
  lemma NumeralInBuffer(before: seq<byte>, at: nat, v: nat, radix: Radix, after: seq<byte>)
    requires at + |Numeral(v, radix)| < |before| && Without(before[..at], NUL)
    requires after == Splice(before, at, Numeral(v, radix) + [NUL])
    ensures CStr(after[0..]) == before[..at] + Numeral(v, radix)
  {
    var digits := Numeral(v, radix);
    NumeralHasNoNul(v, radix);
    hide Numeral;
    SplicedString(before, at, digits, after);
    hide Splice;
    WithFront(after, 0, at, digits);
    CutAtNul(after, 0, before[..at] + digits);
  }

  lemma Fits(value: u32)
    ensures |Numeral(value, 10)| <= 10 && |Numeral(value, 16)| <= 8
  {
    assert Power(10, 10) == 10_000_000_000 by { PowerOfTen(); }
    assert Power(16, 8) == WORD by { PowerOfSixteen(); }
    NumeralLength(value, 10, 10);
    NumeralLength(value, 16, 8);
  }

  lemma PowerOfTen()
    ensures Power(10, 10) == 10_000_000_000
  {
    assert Power(10, 2) == 100;
    assert Power(10, 4) == 10_000;
    assert Power(10, 6) == 1_000_000;
    assert Power(10, 8) == 100_000_000;
  }

  lemma PowerOfSixteen()
    ensures Power(16, 8) == WORD
  {
    assert Power(16, 2) == 0x100;
    assert Power(16, 4) == 0x1_0000;
    assert Power(16, 6) == 0x100_0000;
  }

  // %u, and %x without the alternate form.
  method PlainCase(value: u32, hex: bool) returns (text: seq<byte>)
    ensures Canonical(text, if hex then 16 else 10) && Value(text, if hex then 16 else 10) == value
  {
    var radix: Radix := if hex then 16 else 10;
    var conv_buf := new byte[if hex then 64 else 36];
    Fits(value);
    ghost var before := conv_buf[..];
    Itoa(value, conv_buf, 0, radix);
    NumeralInBuffer(before, 0, value, radix, conv_buf[..]);
    NumeralReadsBack(value, radix);
    text := CStr(conv_buf[..][0..]);
    assert before[..0] + Numeral(value, radix) == Numeral(value, radix);
  }

  // What a signed decimal denotes.
  ghost function SignedValue(s: seq<byte>): int {
    if s != [] && s[0] == MINUS then -Value(s[1..], 10) else Value(s, 10)
  }

  ghost predicate SignedCanonical(s: seq<byte>) {
    if s != [] && s[0] == MINUS then Canonical(s[1..], 10) && s[1] != ZERO else Canonical(s, 10)
  }

  // %d.  Negation is the machine's, modulo 2 to the 32.
  method SignedCase(value: i32) returns (text: seq<byte>)
    ensures SignedCanonical(text) && SignedValue(text) == value
  {
    var conv_buf := new byte[36];
    var start: nat, magnitude: u32 := 0, 0;
    var signed: int := value;
    if signed < 0 {
      conv_buf[0] := MINUS;
      start, magnitude := 1, -signed % WORD;
      assert magnitude == -signed;
    } else {
      magnitude := signed;
    }
    Fits(magnitude);
    assert magnitude == if value < 0 then -(value as int) else value as int;
    ghost var before := conv_buf[..];
    NumeralReadsBack(magnitude, 10);
    ghost var sign := before[..start];
    assert sign == if value < 0 then [MINUS] else [];
    assert Without(sign, NUL);
    assert Value(Numeral(magnitude, 10), 10) == magnitude;
    hide *;
    Itoa(magnitude, conv_buf, start, 10);
    NumeralInBuffer(before, start, magnitude, 10, conv_buf[..]);
    text := CStr(conv_buf[..][0..]);
    Signed(sign, Numeral(magnitude, 10));
  }

  lemma Signed(sign: seq<byte>, digits: seq<byte>)
    requires (sign == [] || sign == [MINUS]) && Canonical(digits, 10) && (sign != [] ==> digits[0] != ZERO)
    ensures SignedCanonical(sign + digits)
    ensures SignedValue(sign + digits) == if sign == [] then Value(digits, 10) else -Value(digits, 10)
  {
    var s := sign + digits;
    assert IsDigit(digits[0], 10);
    if sign == [] { assert s == digits; } else { assert s[1..] == digits; }
  }

  lemma {:induction false} LeadingZeros(s: seq<byte>, zeros: seq<byte>, radix: Radix)
    requires AllDigits(s, radix) && forall i {:trigger zeros[i]} :: 0 <= i < |zeros| ==> zeros[i] == ZERO
    ensures AllDigits(zeros + s, radix) && Value(zeros + s, radix) == Value(s, radix)
  {
    if s != [] {
      var t, c := s[..|s| - 1], s[|s| - 1];
      assert s == t + [c] && zeros + s == zeros + t + [c];
      LeadingZeros(t, zeros, radix);
      ValueOfMore(zeros + t, c, radix);
    } else if zeros != [] {
      var y := zeros[..|zeros| - 1];
      assert zeros == y + [ZERO] && y + [] == y && zeros + s == zeros;
      LeadingZeros([], y, radix);
      ValueOfMore(y, ZERO, radix);
    } else {
      assert zeros + s == s;
    }
  }

  method PadZeros(buf: array<byte>, start: nat)
    requires start <= 8 <= buf.Length
    modifies buf
    ensures forall k {:trigger buf[k]} :: start <= k < 8 ==> buf[k] == ZERO
    ensures forall k {:trigger buf[k]} :: 0 <= k < start || 8 <= k < buf.Length ==> buf[k] == old(buf[k])
  {
    var i := start;
    while i < 8
      invariant start <= i <= 8
      invariant forall k {:trigger buf[k]} :: start <= k < i ==> buf[k] == ZERO
      invariant forall k {:trigger buf[k]} :: 0 <= k < start || i <= k < buf.Length ==> buf[k] == old(buf[k])
    {
      buf[i] := ZERO;
      i := i + 1;
    }
  }

  // %#x: eight digits, the numeral filled up with zeros in front.
  method AlternateHexCase(value: u32) returns (text: seq<byte>)
    ensures |text| == 8 && AllDigits(text, 16) && Value(text, 16) == value
  {
    var conv_buf := new byte[64];
    ghost var digits := Numeral(value, 16);
    Fits(value);
    NumeralReadsBack(value, 16);
    NumeralHasNoNul(value, 16);
    hide Numeral, Value, AllDigits;
    ghost var before := conv_buf[..];
    Itoa(value, conv_buf, 8, 16);
    SplicedString(before, 8, digits, conv_buf[..]);
    hide Splice;
    assert conv_buf[8..8 + |digits|] == digits;
    var starting := Strlen(conv_buf, 8, 8 + |digits|);
    PadZeros(conv_buf, starting);
    ghost var zeros := conv_buf[starting..8];
    LeadingZeros(digits, zeros, 16);
    assert IsCString(conv_buf[..], 8, digits);
    WithFront(conv_buf[..], starting, 8, digits);
    hide IsCString;
    CutAtNul(conv_buf[..], starting, zeros + digits);
    text := CStr(conv_buf[..][starting..]);
  }
}
