// Character classes and the decimal rendering and parsing of numbers that
// the screens and the export use: `Long.toString`, the "Nh Nm" duration
// text and a recogniser for the `(\d+)h\s+(\d+)m` pattern that reads it
// back. Character classes are the ASCII ones.

module Text {
  import opened Records

  predicate IsDigit(c: char) { '0' <= c <= '9' }

  /** `\s`: space, tab, line feed, vertical tab, form feed, carriage return. */
  predicate IsSpace(c: char)
  {
    c == ' ' || c == '\t' || c == '\n' || c == '\U{B}' || c == '\U{C}' || c == '\r'
  }

  predicate IsLetter(c: char) { 'a' <= c <= 'z' || 'A' <= c <= 'Z' }

  function UpperChar(c: char): (r: char)
    ensures IsLetter(c) <==> IsLetter(r)
    ensures !('a' <= c <= 'z') ==> r == c
  {
    if 'a' <= c <= 'z' then (c as int - 32) as char else c
  }

  function LowerChar(c: char): (r: char)
    ensures IsLetter(c) <==> IsLetter(r)
    ensures !('A' <= c <= 'Z') ==> r == c
  {
    if 'A' <= c <= 'Z' then (c as int + 32) as char else c
  }

  predicate AllDigits(s: string)
  {
    forall i :: 0 <= i < |s| ==> IsDigit(s[i])
  }

  function DigitChar(d: nat): (c: char)
    requires d < 10
    ensures IsDigit(c)
  {
    ('0' as int + d) as char
  }

  function DigitValue(c: char): (d: nat)
    requires IsDigit(c)
    ensures d < 10 && DigitChar(d) == c
  {
    c as int - '0' as int
  }

  /** The decimal text of a natural number, without leading zeros. */
  function NatToString(n: nat): (r: string)
    ensures r != [] && AllDigits(r)
    ensures |r| > 1 ==> r[0] != '0'
    decreases n
  {
    if n < 10 then [DigitChar(n)]
    else NatToString(n / 10) + [DigitChar(n % 10)]
  }

  /** The value of a string of decimal digits. */
  function ParseDigits(s: string): (n: nat)
    requires AllDigits(s)
    decreases |s|
  {
    if s == [] then 0
    else ParseDigits(s[..|s| - 1]) * 10 + DigitValue(s[|s| - 1])
  }

  /** Reading back the decimal text gives the number. */
  lemma {:induction false} ParseNatToString(n: nat)
    ensures ParseDigits(NatToString(n)) == n
    decreases n
  {
    var r := NatToString(n);
    if n >= 10 {
      ParseNatToString(n / 10);
      assert r[..|r| - 1] == NatToString(n / 10);
    }
  }

  /** `Long.toString`: a minus sign before the digits of a negative value. */
  function IntToString(i: int): (r: string)
    ensures r != []
    ensures i >= 0 <==> AllDigits(r)
  {
    if i >= 0 then NatToString(i)
    else
      var r := "-" + NatToString(-i);
      assert !IsDigit(r[0]);
      r
  }

  /** The `"${h}h ${m}m"` text of an hours-and-minutes pair. */
  function HoursMinutesText(hours: int, minutes: int): (r: string)
    ensures hours >= 0 && minutes >= 0 ==>
      r == NatToString(hours) + "h " + NatToString(minutes) + "m"
  {
    IntToString(hours) + "h " + IntToString(minutes) + "m"
  }

  /** The end of the run of digits that starts at `i`. */
  function DigitsEnd(s: string, i: nat): (j: nat)
    requires i <= |s|
    ensures i <= j <= |s| && AllDigits(s[i..j])
    ensures j < |s| ==> !IsDigit(s[j])
    decreases |s| - i
  {
    if i < |s| && IsDigit(s[i]) then
      var j := DigitsEnd(s, i + 1);
      assert s[i..j] == [s[i]] + s[i + 1..j];
      j
    else i
  }

  /** The end of the run of `\s` characters that starts at `i`. */
  function SpacesEnd(s: string, i: nat): (j: nat)
    requires i <= |s|
    ensures i <= j <= |s|
    ensures forall k :: i <= k < j ==> IsSpace(s[k])
    ensures j < |s| ==> !IsSpace(s[j])
    decreases |s| - i
  {
    if i < |s| && IsSpace(s[i]) then SpacesEnd(s, i + 1) else i
  }

  /** `(\d+)h\s+(\d+)m` matched at position `i`, with its two groups read as
      numbers. Each repetition is followed by a character it cannot match,
      so the greedy match is the only one. */
  function MatchHoursMinutesAt(s: string, i: nat): (r: Option<(nat, nat)>)
    requires i <= |s|
  {
    var h := DigitsEnd(s, i);
    if h == i || h >= |s| || s[h] != 'h' then None
    else
      var sp := SpacesEnd(s, h + 1);
      if sp == h + 1 then None
      else
        var m := DigitsEnd(s, sp);
        if m == sp || m >= |s| || s[m] != 'm' then None
        else Some((ParseDigits(s[i..h]), ParseDigits(s[sp..m])))
  }

  /** `Regex.find` of `(\d+)h\s+(\d+)m`: the leftmost match at or after `i`. */
  function FindHoursMinutes(s: string, i: nat := 0): (r: Option<(nat, nat)>)
    requires i <= |s|
    ensures r.Some? ==> exists k :: i <= k <= |s| && MatchHoursMinutesAt(s, k) == r
    ensures r.None? ==> forall k :: i <= k <= |s| ==> MatchHoursMinutesAt(s, k).None?
    decreases |s| - i
  {
    var here := MatchHoursMinutesAt(s, i);
    if here.Some? || i == |s| then here else FindHoursMinutes(s, i + 1)
  }

  /** Reading "Nh Nm" back gives the two numbers: the text a duration is
      written as and the pattern the totals read it with agree. */
  lemma HoursMinutesRoundTrip(hours: nat, minutes: nat)
    ensures FindHoursMinutes(HoursMinutesText(hours, minutes)) == Some((hours, minutes))
  {
    MatchHoursMinutesText(hours, minutes);
  }

  /** The pattern matches "Nh Nm" at its first character. */
  lemma MatchHoursMinutesText(hours: nat, minutes: nat)
    ensures MatchHoursMinutesAt(HoursMinutesText(hours, minutes), 0) == Some((hours, minutes))
  {
    var hs, ms := NatToString(hours), NatToString(minutes);
    var s := HoursMinutesText(hours, minutes);
    var sp := |hs| + 2;
    assert s == hs + "h " + ms + "m";
    assert s[0..|hs|] == hs && s[|hs|] == 'h' && s[|hs| + 1] == ' ';
    assert s[sp..sp + |ms|] == ms && s[sp + |ms|] == 'm';
    DigitsEndAt(s, 0, |hs|);
    assert SpacesEnd(s, |hs| + 1) == sp by {
      assert s[sp] == ms[0];
    }
    DigitsEndAt(s, sp, sp + |ms|);
    ParseNatToString(hours);
    ParseNatToString(minutes);
  }

  /** A run of digits ended by a non-digit ends there. */
  lemma {:induction false} DigitsEndAt(s: string, i: nat, j: nat)
    requires i <= j < |s|
    requires forall k :: i <= k < j ==> IsDigit(s[k])
    requires !IsDigit(s[j])
    ensures DigitsEnd(s, i) == j
    decreases j - i
  {
    if i < j {
      DigitsEndAt(s, i + 1, j);
    }
  }

  /** `toString().padStart(2, '0')` of a number below 100. */
  function TwoDigits(n: nat): (r: string)
    requires n < 100
    ensures |r| == 2 && AllDigits(r) && ParseDigits(r) == n
  {
    var r := [DigitChar(n / 10), DigitChar(n % 10)];
    assert r[..1] == [DigitChar(n / 10)] && r[..1][..0] == [];
    assert DigitValue(r[0]) == n / 10 && DigitValue(r[1]) == n % 10;
    assert ParseDigits(r[..1]) == n / 10;
    r
  }
}
