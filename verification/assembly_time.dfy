/** Assembly-time labels of the gearbox catalogue ("30min", "1h", "1h 30min", …) and
    `parseDuration`, which reads them back into minutes with the regular expressions
    `/(\d+)h/` and `/(\d+)min/`. */
module AssemblyTime {
  import opened Prelude
  import opened Types

  // ---------------------------------------------------------------------------
  // `/(\d+)<suffix>/`

  /** The regular expression `(\d+)<suffix>` matches at `i`: a run of digits starts
      there and `suffix` follows the whole run (backtracking to a shorter run would
      leave a digit where `suffix` must start, so only the whole run can match). */
  predicate MatchAt(s: string, suffix: string, i: int) {
    0 <= i < |s| && DigitRun(s[i..]) > 0 && StartsWith(s[i + DigitRun(s[i..])..], suffix)
  }

  /** The captured group of a match at `i`, read by `parseInt`. */
  function NumberAt(s: string, i: nat): nat
    requires i <= |s|
  {
    DigitsValue(s[i..][..DigitRun(s[i..])])
  }

  /** `String.prototype.match` without the global flag: the leftmost match at or after
      `from`. */
  function FirstMatchFrom(s: string, suffix: string, from: nat): (r: Option<nat>)
    requires from <= |s|
    ensures r.Some? ==> from <= r.value < |s| && MatchAt(s, suffix, r.value)
    ensures r.Some? ==> forall j :: from <= j < r.value ==> !MatchAt(s, suffix, j)
    ensures r.None? ==> forall j :: from <= j ==> !MatchAt(s, suffix, j)
    decreases |s| - from
  {
    if from == |s| then None
    else if MatchAt(s, suffix, from) then Some(from)
    else FirstMatchFrom(s, suffix, from + 1)
  }

  /** `i` is where the leftmost match of `(\d+)<suffix>` starts. */
  predicate Leftmost(s: string, suffix: string, i: int) {
    MatchAt(s, suffix, i) && forall j :: 0 <= j < i ==> !MatchAt(s, suffix, j)
  }

  /** The captured number of the first match, if any. */
  function FirstNumber(s: string, suffix: string): (r: Option<nat>)
    ensures r.None? <==> forall j :: !MatchAt(s, suffix, j)
    ensures forall i :: Leftmost(s, suffix, i) ==> r == Some(NumberAt(s, i))
  {
    match FirstMatchFrom(s, suffix, 0)
    case None => None
    case Some(p) =>
      assert forall i :: Leftmost(s, suffix, i) ==> i == p;
      Some(NumberAt(s, p))
  }

  /** `parseDuration` of the new-order screen: hours times 60 plus minutes, each 0 when
      its pattern does not occur; the empty string is 0. */
  function ParseDuration(s: string): (m: nat)
    ensures s == "" ==> m == 0
    ensures (forall j :: !MatchAt(s, "h", j)) && (forall j :: !MatchAt(s, "min", j)) ==> m == 0
    ensures forall i, k :: Leftmost(s, "h", i) && Leftmost(s, "min", k) ==>
              m == 60 * NumberAt(s, i) + NumberAt(s, k)
    ensures forall i :: Leftmost(s, "h", i) && (forall j :: !MatchAt(s, "min", j)) ==> m == 60 * NumberAt(s, i)
    ensures forall k :: Leftmost(s, "min", k) && (forall j :: !MatchAt(s, "h", j)) ==> m == NumberAt(s, k)
  {
    if s == "" then 0
    else
      var hours := match FirstNumber(s, "h") case None => 0 case Some(n) => n;
      var minutes := match FirstNumber(s, "min") case None => 0 case Some(n) => n;
      hours * 60 + minutes
  }

  /** The variant used when a booking is committed: an empty label and a label worth
      0 minutes both give 60. */
  function ParseDurationOr60(s: string): (m: nat)
    ensures m > 0
    ensures m == DurationOr60(ParseDuration(s))
  {
    if s == "" then 60
    else
      var minutes := ParseDuration(s);
      if minutes == 0 then 60 else minutes
  }

  // ---------------------------------------------------------------------------
  // Labels

  /** The label of `m` minutes: `${h}h ${m}min`, `${h}h` or `${m}min`. It starts with a
      digit and ends in "h" exactly for a positive whole number of hours. It reads back
      as its minutes (`ParseLabel`). */
  function Label(m: nat): (r: string)
    ensures |r| > 0 && IsDigit(r[0])
    ensures r[|r| - 1] == 'h' <==> m > 0 && m % 60 == 0
  {
    var h := m / 60;
    var mm := m % 60;
    if h > 0 then
      if mm > 0 then NatToString(h) + "h " + NatToString(mm) + "min" else NatToString(h) + "h"
    else NatToString(mm) + "min"
  }

  /** Every label reads back as its minutes: `parseDuration(label(m)) == m`. */
  lemma ParseLabel(m: nat)
    ensures ParseDuration(Label(m)) == m
  {
    var h := m / 60;
    var mm := m % 60;
    NatToStringValue(h);
    NatToStringValue(mm);
    if h > 0 && mm > 0 {
      ParseHoursAndMinutes(NatToString(h), NatToString(mm));
    } else if h > 0 {
      ParseHours(NatToString(h));
    } else {
      ParseMinutes(NatToString(mm));
    }
  }

  /** The ten options of the assembly-time selector, 30 to 300 minutes in steps of 30. */
  function Options(): (r: seq<string>)
    ensures |r| == 10
    ensures forall i :: 0 <= i < 10 ==> r[i] == Label(30 * (i + 1))
  {
    seq(10, i requires 0 <= i < 10 => Label(30 * (i + 1)))
  }

  /** The selector's whole-hour options are "1h" … "5h". */
  lemma OptionsWholeHours()
    ensures Options()[1] == "1h"
    ensures Options()[3] == "2h"
    ensures Options()[5] == "3h"
    ensures Options()[7] == "4h"
    ensures Options()[9] == "5h"
  {
    WholeHours(1, '1');
    WholeHours(2, '2');
    WholeHours(3, '3');
    WholeHours(4, '4');
    WholeHours(5, '5');
  }

  /** The selector's other options are "30min", "1h 30min" … "4h 30min". */
  lemma OptionsHalfHours()
    ensures Options()[0] == "30min"
    ensures Options()[2] == "1h 30min"
    ensures Options()[4] == "2h 30min"
    ensures Options()[6] == "3h 30min"
    ensures Options()[8] == "4h 30min"
  {
    HalfHourLabel();
    HalfHourOption(1, '1');
    HalfHourOption(2, '2');
    HalfHourOption(3, '3');
    HalfHourOption(4, '4');
  }

  lemma HalfHourOption(k: nat, c: char)
    requires 1 <= k <= 4 && c == DigitChar(k)
    ensures Options()[2 * k] == [c] + "h 30min"
  {
    HoursAndAHalf(k, c);
    assert 30 * (2 * k + 1) == 60 * k + 30;
  }

  lemma HalfHourLabel()
    ensures Label(30) == "30min"
  {
    assert NatToString(30) == "30";
  }

  lemma WholeHours(k: nat, c: char)
    requires 1 <= k <= 9 && c == DigitChar(k)
    ensures Label(60 * k) == [c] + "h"
  {
    assert (60 * k) / 60 == k && (60 * k) % 60 == 0;
  }

  lemma HoursAndAHalf(k: nat, c: char)
    requires 1 <= k <= 9 && c == DigitChar(k)
    ensures Label(60 * k + 30) == [c] + "h 30min"
  {
    assert (60 * k + 30) / 60 == k && (60 * k + 30) % 60 == 30;
    assert NatToString(30) == "30";
  }

  // ---------------------------------------------------------------------------
  // Reading a label back

  /** A run of digits `d` at `i`, ended by `rest`. */
  lemma RunAt(s: string, i: nat, d: string, rest: string)
    requires i <= |s| && s[i..] == d + rest
    requires AllDigits(d)
    requires |rest| == 0 || !IsDigit(rest[0])
    ensures DigitRun(s[i..]) == |d|
    ensures s[i + |d|..] == rest
    ensures s[i..][..DigitRun(s[i..])] == d
  {
    DigitRunOfDigitsThen(d, rest);
    assert s[i + |d|..] == s[i..][|d|..];
    assert (d + rest)[..|d|] == d;
  }

  /** A non-empty run of digits `d` at `i` followed by `suffix` is a match at `i`
      capturing `d`. */
  lemma MatchOfRun(s: string, i: nat, d: string, rest: string, suffix: string)
    requires i <= |s| && s[i..] == d + rest
    requires |d| > 0 && AllDigits(d)
    requires StartsWith(rest, suffix) && |suffix| > 0 && !IsDigit(suffix[0])
    ensures MatchAt(s, suffix, i)
    ensures NumberAt(s, i) == DigitsValue(d)
  {
    RunAt(s, i, d, rest);
  }

  /** No match starts inside a run of digits `d` at `i` that is followed by something
      other than `suffix`. */
  lemma NoMatchInRun(s: string, i: nat, d: string, rest: string, suffix: string, j: nat)
    requires i <= |s| && s[i..] == d + rest
    requires AllDigits(d)
    requires |rest| > 0 && !IsDigit(rest[0]) && !StartsWith(rest, suffix)
    requires i <= j < i + |d|
    ensures !MatchAt(s, suffix, j)
  {
    var k := j - i;
    assert s[j..] == s[i..][k..] == d[k..] + rest;
    assert AllDigits(d[k..]);
    RunAt(s, j, d[k..], rest);
  }

  /** No match starts on a character that is not a digit. */
  lemma NoMatchAtNonDigit(s: string, suffix: string, j: nat)
    requires j < |s| && !IsDigit(s[j])
    ensures !MatchAt(s, suffix, j)
  {
  }

  /** The leftmost match is the first position that matches. */
  lemma FirstMatchIs(s: string, suffix: string, p: nat)
    requires MatchAt(s, suffix, p)
    requires forall j :: 0 <= j < p ==> !MatchAt(s, suffix, j)
    ensures FirstMatchFrom(s, suffix, 0) == Some(p)
  {
  }

  /** A leading run of digits followed by `suffix` is the first match. */
  lemma FirstNumberOfRun(d: string, rest: string, suffix: string)
    requires |d| > 0 && AllDigits(d)
    requires StartsWith(rest, suffix) && |suffix| > 0 && !IsDigit(suffix[0])
    ensures FirstNumber(d + rest, suffix) == Some(DigitsValue(d))
  {
    var s := d + rest;
    assert s[0..] == d + rest;
    MatchOfRun(s, 0, d, rest, suffix);
    FirstMatchIs(s, suffix, 0);
  }

  /** In `"<H>h <M>min"` no `(\d+)min` match starts before `M`. */
  lemma NoMinutesInHours(H: string, M: string, j: nat)
    requires |H| > 0 && AllDigits(H) && |M| > 0 && AllDigits(M)
    requires j < |H| + 2
    ensures !MatchAt(H + "h " + M + "min", "min", j)
  {
    var s := H + "h " + M + "min";
    var afterH := "h " + M + "min";
    if j < |H| {
      assert s[0..] == H + afterH;
      NoMatchInRun(s, 0, H, afterH, "min", j);
    } else {
      assert s[j] == afterH[j - |H|];
      NoMatchAtNonDigit(s, "min", j);
    }
  }

  /** In `"<H>h <M>min"` the first `(\d+)min` captures `M`. */
  lemma MinutesAfterHours(H: string, M: string)
    requires |H| > 0 && AllDigits(H) && |M| > 0 && AllDigits(M)
    ensures FirstNumber(H + "h " + M + "min", "min") == Some(DigitsValue(M))
  {
    var s := H + "h " + M + "min";
    assert s[|H| + 2..] == M + "min" by {
      SuffixAfter(H + "h ", M + "min");
    }
    MatchOfRun(s, |H| + 2, M, "min", "min");
    assert forall j :: 0 <= j < |H| + 2 ==> !MatchAt(s, "min", j) by {
      forall j | 0 <= j < |H| + 2 ensures !MatchAt(s, "min", j) {
        NoMinutesInHours(H, M, j);
      }
    }
    FirstMatchIs(s, "min", |H| + 2);
  }

  lemma SuffixAfter(a: string, b: string)
    ensures (a + b)[|a|..] == b
  {
  }

  /** `"<H>h <M>min"` reads back as `60 * H + M`. */
  lemma ParseHoursAndMinutes(H: string, M: string)
    requires |H| > 0 && AllDigits(H) && |M| > 0 && AllDigits(M)
    ensures ParseDuration(H + "h " + M + "min") == 60 * DigitsValue(H) + DigitsValue(M)
  {
    assert H + "h " + M + "min" == H + ("h " + M + "min");
    FirstNumberOfRun(H, "h " + M + "min", "h");
    MinutesAfterHours(H, M);
  }

  /** `"<H>h"` reads back as `60 * H`. */
  lemma ParseHours(H: string)
    requires |H| > 0 && AllDigits(H)
    ensures ParseDuration(H + "h") == 60 * DigitsValue(H)
  {
    var s := H + "h";
    assert s[0..] == H + "h";
    MatchOfRun(s, 0, H, "h", "h");
    FirstMatchIs(s, "h", 0);
    forall j | 0 <= j ensures !MatchAt(s, "min", j) {
      if j < |H| {
        NoMatchInRun(s, 0, H, "h", "min", j);
      } else if j == |H| {
        NoMatchAtNonDigit(s, "min", j);
      }
    }
  }

  /** `"<M>min"` reads back as `M`. */
  lemma ParseMinutes(M: string)
    requires |M| > 0 && AllDigits(M)
    ensures ParseDuration(M + "min") == DigitsValue(M)
  {
    var s := M + "min";
    assert s[0..] == M + "min";
    MatchOfRun(s, 0, M, "min", "min");
    FirstMatchIs(s, "min", 0);
    forall j | 0 <= j ensures !MatchAt(s, "h", j) {
      if j < |M| {
        NoMatchInRun(s, 0, M, "min", "h", j);
      } else if j < |s| {
        assert s[j] == "min"[j - |M|];
        NoMatchAtNonDigit(s, "h", j);
      }
    }
  }

  /** Every option of the selector reads back as its minutes, also when committed. */
  lemma ParseOptions()
    ensures forall i :: 0 <= i < 10 ==> ParseDuration(Options()[i]) == 30 * (i + 1)
    ensures forall i :: 0 <= i < 10 ==> ParseDurationOr60(Options()[i]) == 30 * (i + 1)
  {
    forall i | 0 <= i < 10 ensures ParseDuration(Options()[i]) == 30 * (i + 1) {
      ParseLabel(30 * (i + 1));
    }
  }
}
