/** The integer read from a forecast-table cell, as `parse_air_temperature`
    and `parse_wave_periods` do it: the first whitespace-separated token of the
    cell text, parsed as an `i32`, with 0 for a missing or unparsable token. */
module Cells {
  import opened Wrappers
  import opened Text

  const I32Min: int := -0x8000_0000
  const I32Max: int := 0x7FFF_FFFF

  /** How many non-whitespace characters `s` starts with. */
  function TokenLength(s: string): (n: nat)
    ensures n <= |s|
    ensures forall i :: 0 <= i < n ==> !IsWhitespace(s[i])
    ensures n < |s| ==> IsWhitespace(s[n])
  {
    if |s| > 0 && !IsWhitespace(s[0]) then 1 + TokenLength(s[1..]) else 0
  }

  /** `tok` is a whole whitespace-free token of `s` at `lo`, after only whitespace. */
  predicate TokenAt(s: string, tok: string, lo: int) {
    0 <= lo && lo + |tok| <= |s| && AllWhitespace(s[..lo]) && s[lo..lo + |tok|] == tok
    && (lo + |tok| == |s| || IsWhitespace(s[lo + |tok|]))
  }

  /** `str::split_whitespace().next()`: the first maximal run of
      non-whitespace characters, absent when the text is all whitespace. */
  function FirstToken(s: string): (r: Option<string>)
    ensures r.None? <==> AllWhitespace(s)
    ensures r.Some? ==> r.value != [] && forall i :: 0 <= i < |r.value| ==> !IsWhitespace(r.value[i])
    ensures r.Some? ==> exists lo :: TokenAt(s, r.value, lo)
  {
    var lo := LeadingWhitespace(s);
    if lo == |s| then
      assert s[..lo] == s;
      None
    else
      var rest := s[lo..];
      var n := TokenLength(rest);
      assert !IsWhitespace(s[lo]);
      assert rest[..n] == s[lo..lo + n];
      assert TokenAt(s, rest[..n], lo);
      Some(rest[..n])
  }

  predicate IsDigit(c: char) {
    '0' <= c <= '9'
  }

  predicate AllDigits(s: string) {
    forall i :: 0 <= i < |s| ==> IsDigit(s[i])
  }

  /** The value of a string of decimal digits, most significant first. */
  function DigitsValue(ds: string): nat
    requires AllDigits(ds)
  {
    if ds == [] then 0
    else DigitsValue(ds[..|ds| - 1]) * 10 + (ds[|ds| - 1] as int - '0' as int)
  }

  /** The token without its sign, if it has one. */
  function Unsigned(t: string): string {
    if |t| > 0 && (t[0] == '-' || t[0] == '+') then t[1..] else t
  }

  /** `i32::from_str`: an optional `+` or `-` sign, then at least one decimal
      digit and nothing else, with a value that fits in 32 bits. */
  function ParseI32(t: string): (r: Option<int>)
    ensures r.Some? ==> I32Min <= r.value <= I32Max
    ensures r.Some? ==> t != [] && (IsDigit(t[0]) || t[0] == '+' || t[0] == '-')
    ensures r.Some? ==> Unsigned(t) != [] && AllDigits(Unsigned(t))
    ensures r.Some? ==> r.value == (if t[0] == '-' then -(DigitsValue(Unsigned(t)) as int)
                                    else DigitsValue(Unsigned(t)) as int)
    ensures Unsigned(t) != [] && AllDigits(Unsigned(t))
            && I32Min <= (if t[0] == '-' then -(DigitsValue(Unsigned(t)) as int)
                          else DigitsValue(Unsigned(t)) as int) <= I32Max
            ==> r.Some?
  {
    var negative := |t| > 0 && t[0] == '-';
    var digits := Unsigned(t);
    if digits == [] || !AllDigits(digits) then None
    else
      var magnitude: int := DigitsValue(digits);
      var v := if negative then -magnitude else magnitude;
      if I32Min <= v <= I32Max then Some(v) else None
  }

  /** The cell parse: `split_whitespace().next().unwrap_or("0").parse::<i32>().unwrap_or(0)`. */
  function ParseCell(text: string): (v: int)
    ensures I32Min <= v <= I32Max
    ensures AllWhitespace(text) ==> v == 0
    ensures FirstToken(text).Some? && ParseI32(FirstToken(text).value).None? ==> v == 0
    ensures FirstToken(text).Some? && ParseI32(FirstToken(text).value).Some?
            ==> v == ParseI32(FirstToken(text).value).value
  {
    ParseI32(FirstToken(text).GetOr("0")).GetOr(0)
  }

  /** Decimal rendering of a natural number, without leading zeros. */
  function Decimal(n: nat): (ds: string)
    ensures ds != []
  {
    if n < 10 then [('0' as int + n) as char]
    else Decimal(n / 10) + [('0' as int + n % 10) as char]
  }

  /** `i32::to_string`: decimal rendering with a leading `-` for negatives. */
  function FormatI32(n: int): (t: string)
    ensures t != []
  {
    if n < 0 then "-" + Decimal(-n) else Decimal(n)
  }

  /** Reading back the digits of `Decimal(n)` gives `n`. */
  lemma {:induction false} DecimalRoundTrip(n: nat)
    ensures AllDigits(Decimal(n)) && DigitsValue(Decimal(n)) == n
  {
    if n >= 10 {
      DecimalRoundTrip(n / 10);
      var ds := Decimal(n);
      assert ds[..|ds| - 1] == Decimal(n / 10);
    }
  }

  /** `parse::<i32>` undoes `to_string` on every 32-bit value. */
  lemma ParseFormatRoundTrip(n: int)
    requires I32Min <= n <= I32Max
    ensures ParseI32(FormatI32(n)) == Some(n)
  {
    var t := FormatI32(n);
    if n < 0 {
      var ds := Decimal(-n);
      DecimalRoundTrip(-n);
      assert t[0] == '-' && t[1..] == ds;
    } else {
      DecimalRoundTrip(n);
      assert IsDigit(t[0]);
    }
  }

  /** Digits without a leading zero (other than a lone "0") are exactly the
      rendering of their value. */
  predicate Canonical(ds: string) {
    ds != [] && AllDigits(ds) && (|ds| == 1 || ds[0] != '0')
  }

  /** Leading zeros do not change the value of a digit string. */
  lemma {:induction false} LeadingZeroValue(ds: string)
    requires AllDigits(ds)
    ensures AllDigits("0" + ds) && DigitsValue("0" + ds) == DigitsValue(ds)
  {
    if ds != [] {
      LeadingZeroValue(ds[..|ds| - 1]);
      assert ("0" + ds)[..|ds|] == "0" + ds[..|ds| - 1];
    }
  }

  /** Digits that start with a non-zero digit have a positive value. */
  lemma {:induction false} LeadingNonZeroPositive(ds: string)
    requires ds != [] && AllDigits(ds) && ds[0] != '0'
    ensures DigitsValue(ds) >= 1
  {
    if |ds| > 1 {
      LeadingNonZeroPositive(ds[..|ds| - 1]);
    }
  }

  /** Rendering the value of canonical digits gives the digits back. */
  lemma {:induction false} DecimalOfDigits(ds: string)
    requires Canonical(ds)
    ensures Decimal(DigitsValue(ds)) == ds
  {
    if |ds| > 1 {
      var init := ds[..|ds| - 1];
      LeadingNonZeroPositive(init);
      DecimalOfDigits(init);
      var n := DigitsValue(ds);
      assert n / 10 == DigitsValue(init);
      assert ds == init + [ds[|ds| - 1]];
    }
  }

  /** `to_string` undoes `parse::<i32>` on every token written the way
      `to_string` writes it: no `+`, no leading zero, and not "-0". */
  lemma FormatParseRoundTrip(t: string, v: int)
    requires ParseI32(t) == Some(v)
    requires t[0] != '+' && t != "-0"
    requires |Unsigned(t)| == 1 || Unsigned(t)[0] != '0'
    ensures FormatI32(v) == t
  {
    var ds := Unsigned(t);
    DecimalOfDigits(ds);
    if t[0] == '-' {
      assert t == "-" + ds;
      if |ds| == 1 {
        assert ds[0] != '0';
      }
      LeadingNonZeroPositive(ds);
    }
  }

  /** Leading whitespace stops at the first non-whitespace character. */
  lemma {:induction false} LeadingWhitespaceOfPadded(pad: string, s: string)
    requires AllWhitespace(pad)
    requires s != [] && !IsWhitespace(s[0])
    ensures LeadingWhitespace(pad + s) == |pad|
  {
    if pad != [] {
      assert (pad + s)[1..] == pad[1..] + s;
      LeadingWhitespaceOfPadded(pad[1..], s);
    } else {
      assert pad + s == s;
    }
  }

  /** A token stops at the first whitespace character after it. */
  lemma {:induction false} TokenLengthOfDelimited(t: string, tail: string)
    requires forall i :: 0 <= i < |t| ==> !IsWhitespace(t[i])
    requires tail == [] || IsWhitespace(tail[0])
    ensures TokenLength(t + tail) == |t|
  {
    if t != [] {
      assert (t + tail)[1..] == t[1..] + tail;
      TokenLengthOfDelimited(t[1..], tail);
    } else {
      assert t + tail == tail;
    }
  }

  /** The rendering of a number holds no whitespace. */
  lemma FormatHasNoWhitespace(n: int)
    ensures forall i :: 0 <= i < |FormatI32(n)| ==> !IsWhitespace(FormatI32(n)[i])
  {
    var t := FormatI32(n);
    if n < 0 {
      DecimalRoundTrip(-n);
      assert forall i :: 1 <= i < |t| ==> t[i] == Decimal(-n)[i - 1];
    } else {
      DecimalRoundTrip(n);
    }
  }

  /** A whitespace-free token between leading whitespace and a whitespace
      character (or the end) is the first token. */
  lemma FirstTokenOfDelimited(pad: string, t: string, tail: string)
    requires AllWhitespace(pad)
    requires t != [] && forall i :: 0 <= i < |t| ==> !IsWhitespace(t[i])
    requires tail == [] || IsWhitespace(tail[0])
    ensures FirstToken(pad + t + tail) == Some(t)
  {
    var s := pad + t + tail;
    assert s == pad + (t + tail);
    LeadingWhitespaceOfPadded(pad, t + tail);
    assert s[|pad|..] == t + tail;
    TokenLengthOfDelimited(t, tail);
    assert (t + tail)[..|t|] == t;
  }

  /** A rendered value among whitespace: the cell `pad + FormatI32(n) + tail`
      (leading whitespace, then whitespace or nothing after the number) reads as `n`. */
  lemma CellRoundTrip(pad: string, n: int, tail: string)
    requires I32Min <= n <= I32Max
    requires AllWhitespace(pad)
    requires tail == [] || IsWhitespace(tail[0])
    ensures ParseCell(pad + FormatI32(n) + tail) == n
  {
    FormatHasNoWhitespace(n);
    FirstTokenOfDelimited(pad, FormatI32(n), tail);
    ParseFormatRoundTrip(n);
  }

  /** Blank cells read as 0; a unit after the number is ignored. */
  lemma Examples()
    ensures ParseCell("") == 0
    ensures ParseCell("  \n") == 0
    ensures ParseCell(" 8 s") == 8
  {
    assert FormatI32(8) == "8";
    assert " 8 s" == " " + FormatI32(8) + " s";
    CellRoundTrip(" ", 8, " s");
  }

  /** `i32::from_str` accepts an explicit `+` sign. */
  lemma PlusSignExample()
    ensures ParseCell(" +8 ") == 8
  {
    var t := "+8";
    assert Unsigned(t) == "8";
    assert ParseI32(t) == Some(8);
    assert " +8 " == " " + t + " ";
    FirstTokenOfDelimited(" ", t, " ");
  }

  /** `i32::from_str` accepts leading zeros. */
  lemma LeadingZeroExample()
    ensures ParseCell("08") == 8
  {
    var t := "08";
    LeadingZeroValue("8");
    assert t == "0" + "8";
    assert ParseI32(t) == Some(8);
    assert t == [] + t + [];
    FirstTokenOfDelimited([], t, []);
  }

  /** A unit glued to the number makes the token unparsable: the cell reads as 0. */
  lemma GluedUnitExample()
    ensures ParseCell("8s") == 0
  {
    var t := "8s";
    assert !IsDigit(Unsigned(t)[1]);
    assert ParseI32(t) == None;
    assert t == [] + t + [];
    FirstTokenOfDelimited([], t, []);
  }
}
