/** The `AUTO-NNNN` codes given to new gearboxes, both when a gearbox is registered
    during check-in and in the catalogue's gearbox form: every existing code loses its
    first `AUTO-`, the rest is read with `parseInt`, unreadable codes are ignored, and
    the new code carries the largest number read plus one, padded to four digits. */
module GearboxCode {
  import opened Prelude
  import opened Types

  // ---------------------------------------------------------------------------
  // `String.prototype.replace` with a string pattern

  /** The first position at or after `from` where `pat` occurs. */
  function FirstOccurrence(s: string, pat: string, from: nat): (r: Option<nat>)
    requires from <= |s|
    ensures r.Some? ==> from <= r.value && OccursAt(s, pat, r.value)
    ensures r.Some? ==> forall j :: from <= j < r.value ==> !OccursAt(s, pat, j)
    ensures r.None? ==> forall j :: from <= j ==> !OccursAt(s, pat, j)
    decreases |s| - from
  {
    if OccursAt(s, pat, from) then Some(from)
    else if from == |s| then None
    else FirstOccurrence(s, pat, from + 1)
  }

  /** `s.replace(pat, repl)`: only the first occurrence is replaced. */
  function ReplaceFirst(s: string, pat: string, repl: string): (r: string)
    ensures (forall j :: !OccursAt(s, pat, j)) ==> r == s
    ensures forall i :: OccursAt(s, pat, i) && (forall j :: 0 <= j < i ==> !OccursAt(s, pat, j))
                        ==> r == s[..i] + repl + s[i + |pat|..]
  {
    match FirstOccurrence(s, pat, 0)
    case None => s
    case Some(i) => s[..i] + repl + s[i + |pat|..]
  }

  /** A string that starts with `pat` loses exactly that prefix. */
  lemma ReplaceLeading(pat: string, rest: string)
    ensures ReplaceFirst(pat + rest, pat, "") == rest
  {
    var s := pat + rest;
    assert OccursAt(s, pat, 0);
    assert s[..0] + "" + s[|pat|..] == rest;
  }

  // ---------------------------------------------------------------------------
  // `parseInt` without a radix

  /** The value of a digit in bases up to 36; 36 for a character that is no digit. */
  function DigitOf(c: char): (d: nat)
    ensures d <= 36
    ensures IsDigit(c) <==> d < 10
    ensures IsDigit(c) ==> d == DigitValue(c)
  {
    if '0' <= c <= '9' then (c as int - '0' as int)
    else if 'a' <= c <= 'z' then (c as int - 'a' as int) + 10
    else if 'A' <= c <= 'Z' then (c as int - 'A' as int) + 10
    else 36
  }

  predicate AllInRadix(s: string, radix: nat) {
    forall i :: 0 <= i < |s| ==> DigitOf(s[i]) < radix
  }

  /** The longest prefix of `s` made of digits of `radix`, as a length. */
  function RadixRun(s: string, radix: nat): (n: nat)
    ensures n <= |s|
    ensures AllInRadix(s[..n], radix)
    ensures n < |s| ==> DigitOf(s[n]) >= radix
  {
    if |s| > 0 && DigitOf(s[0]) < radix then
      var n := 1 + RadixRun(s[1..], radix);
      assert s[..n] == [s[0]] + s[1..][..n - 1];
      n
    else 0
  }

  /** The number written by the digits `s` in base `radix`. */
  function RadixValue(s: string, radix: nat): nat
    requires AllInRadix(s, radix)
  {
    if |s| == 0 then 0 else RadixValue(s[..|s| - 1], radix) * radix + DigitOf(s[|s| - 1])
  }

  /** The number of leading white-space characters. */
  function SpaceRun(s: string): (n: nat)
    ensures n <= |s|
    ensures forall i :: 0 <= i < n ==> IsJsSpace(s[i])
    ensures n < |s| ==> !IsJsSpace(s[n])
  {
    if |s| > 0 && IsJsSpace(s[0]) then 1 + SpaceRun(s[1..]) else 0
  }

  /** What `parseInt` reads after white space and sign: the radix and the digits. */
  function Unsigned(u: string): (r: (nat, string))
    ensures r.0 == 10 || r.0 == 16
    ensures r.0 == 16 <==> |u| >= 2 && u[0] == '0' && (u[1] == 'x' || u[1] == 'X')
    ensures r.0 == 16 ==> r.1 == u[2..]
    ensures r.0 == 10 ==> r.1 == u
  {
    if |u| >= 2 && u[0] == '0' && (u[1] == 'x' || u[1] == 'X') then (16, u[2..]) else (10, u)
  }

  /** `parseInt(s)`: `None` stands for `NaN`. Leading white space is skipped, one sign
      is read, `0x`/`0X` switches to base 16, and the longest run of digits after that
      is the value; no digit at all gives `NaN`. */
  function ParseInt(s: string): (r: Option<int>)
    ensures var t := s[SpaceRun(s)..];
            var u := if |t| > 0 && (t[0] == '-' || t[0] == '+') then t[1..] else t;
            var body := Unsigned(u).1;
            r.Some? <==> |body| > 0 && DigitOf(body[0]) < Unsigned(u).0
  {
    var t := s[SpaceRun(s)..];
    var negative := |t| > 0 && t[0] == '-';
    var u := if |t| > 0 && (t[0] == '-' || t[0] == '+') then t[1..] else t;
    var (radix, body) := Unsigned(u);
    var n := RadixRun(body, radix);
    if n == 0 then None
    else
      var v: int := RadixValue(body[..n], radix);
      Some(if negative then -v else v)
  }

  /** Decimal digits read in base 10 give their decimal value. */
  lemma {:induction false} DecimalValue(d: string)
    requires AllDigits(d)
    ensures AllInRadix(d, 10)
    ensures RadixValue(d, 10) == DigitsValue(d)
  {
    if |d| > 0 {
      DecimalValue(d[..|d| - 1]);
    }
  }

  /** Without white space, sign or `0x` in front, `parseInt` reads the leading
      decimal run. */
  lemma ParsePlain(s: string)
    requires |s| > 0 && !IsJsSpace(s[0]) && s[0] != '-' && s[0] != '+'
    requires !(|s| >= 2 && s[0] == '0' && (s[1] == 'x' || s[1] == 'X'))
    ensures var n := RadixRun(s, 10);
            ParseInt(s) == if n == 0 then None else Some(RadixValue(s[..n], 10) as int)
  {
    assert SpaceRun(s) == 0;
    assert s[0..] == s;
  }

  /** A string of decimal digits reads back as its value: `parseInt(d) == d`. */
  lemma ParseDigits(d: string)
    requires |d| > 0 && AllDigits(d)
    ensures ParseInt(d) == Some(DigitsValue(d))
  {
    assert IsDigit(d[0]);
    assert |d| >= 2 ==> IsDigit(d[1]);
    ParsePlain(d);
    RadixDigitsRun(d);
    assert d[..|d|] == d;
    DecimalValue(d);
  }

  /** On decimal digits the base-10 run covers the whole string. */
  lemma {:induction false} RadixDigitsRun(d: string)
    requires AllDigits(d)
    ensures RadixRun(d, 10) == |d|
  {
    if |d| > 0 {
      RadixDigitsRun(d[1..]);
    }
  }

  // ---------------------------------------------------------------------------
  // Code generation

  /** `parseInt(code.replace('AUTO-', ''))`. */
  function CodeNumber(code: string): Option<int> {
    ParseInt(ReplaceFirst(code, "AUTO-", ""))
  }

  /** The numbers read from the existing codes, in order, skipping `NaN`. */
  function Numbers(codes: seq<string>): (r: seq<int>)
    ensures |r| <= |codes|
    ensures forall n :: n in r <==> exists c :: c in codes && CodeNumber(c) == Some(n)
  {
    if |codes| == 0 then []
    else
      var init := codes[..|codes| - 1];
      var last := codes[|codes| - 1];
      var rest := Numbers(init);
      var r := if CodeNumber(last).Some? then rest + [CodeNumber(last).value] else rest;
      NumbersStep(codes, init, last, rest, r, CodeNumber);
      r
  }

  /** One more code read by `read` adds its number, if any, to the numbers read. */
  lemma NumbersStep(codes: seq<string>, init: seq<string>, last: string, rest: seq<int>, r: seq<int>,
                    read: string -> Option<int>)
    requires codes == init + [last]
    requires forall n :: n in rest <==> exists c :: c in init && read(c) == Some(n)
    requires r == if read(last).Some? then rest + [read(last).value] else rest
    ensures forall n :: n in r <==> exists c :: c in codes && read(c) == Some(n)
  {
    forall n ensures n in r <==> exists c :: c in codes && read(c) == Some(n) {
      if n in r && n !in rest {
        assert codes[|init|] == last;
      }
      if n in rest {
        var c :| c in init && read(c) == Some(n);
        var i :| 0 <= i < |init| && init[i] == c;
        assert codes[i] == c;
      }
      if exists c :: c in codes && read(c) == Some(n) {
        var c :| c in codes && read(c) == Some(n);
        var i :| 0 <= i < |codes| && codes[i] == c;
        if i < |init| {
          assert init[i] == c;
        }
      }
    }
  }

  /** `numbers.length > 0 ? Math.max(...numbers) : 0`. */
  function MaxOrZero(nums: seq<int>): (m: int)
    ensures forall i :: 0 <= i < |nums| ==> nums[i] <= m
    ensures |nums| == 0 ==> m == 0
    ensures |nums| > 0 ==> m in nums
  {
    if |nums| == 0 then 0
    else if |nums| == 1 then nums[0]
    else Max(MaxOrZero(nums[..|nums| - 1]), nums[|nums| - 1])
  }

  /** The number of the next code. */
  function NextNumber(codes: seq<string>): int {
    MaxOrZero(Numbers(codes)) + 1
  }

  /** `AUTO-${next.toString().padStart(4, '0')}`. */
  function NextCode(codes: seq<string>): (code: string)
    ensures StartsWith(code, "AUTO-")
    ensures NextNumber(codes) >= 0 ==> |code| == 5 + Max(4, |NatToString(NextNumber(codes))|)
  {
    "AUTO-" + PadStart(IntToString(NextNumber(codes)), 4, '0')
  }

  /** The next number is larger than every number read from an existing code. */
  lemma NextNumberAbove(codes: seq<string>)
    ensures forall c, n :: c in codes && CodeNumber(c) == Some(n) ==> n < NextNumber(codes)
  {
    var nums := Numbers(codes);
    forall c, n | c in codes && CodeNumber(c) == Some(n) ensures n < NextNumber(codes) {
      assert n in nums;
    }
  }

  /** The next number is 1 when no code can be read, and otherwise one more than a
      number that some code carries. */
  lemma NextNumberFromCodes(codes: seq<string>)
    ensures (forall c :: c in codes ==> CodeNumber(c).None?) ==> NextNumber(codes) == 1
    ensures (exists c :: c in codes && CodeNumber(c).Some?)
            ==> exists c :: c in codes && CodeNumber(c) == Some(NextNumber(codes) - 1)
  {
    var nums := Numbers(codes);
    if exists c :: c in codes && CodeNumber(c).Some? {
      var c :| c in codes && CodeNumber(c).Some?;
      assert CodeNumber(c).value in nums;
    }
  }

  /** A number padded to four digits reads back as itself. */
  lemma PaddedReadsBack(n: nat)
    ensures ParseInt(PadStart(NatToString(n), 4, '0')) == Some(n)
  {
    var digits := NatToString(n);
    var padded := PadStart(digits, 4, '0');
    var k := |padded| - |digits|;
    assert padded == seq(k, _ => '0') + digits;
    DigitsValueLeadingZeros(k, digits);
    NatToStringValue(n);
    ParseDigits(padded);
  }

  /** A generated code reads back as its number, when that number is not negative. */
  lemma NextCodeReadsBack(codes: seq<string>)
    requires NextNumber(codes) >= 0
    ensures CodeNumber(NextCode(codes)) == Some(NextNumber(codes))
  {
    var n: nat := NextNumber(codes);
    assert IntToString(n) == NatToString(n);
    ReplaceLeading("AUTO-", PadStart(NatToString(n), 4, '0'));
    PaddedReadsBack(n);
  }

  /** A generated code is new: no existing code carries it. */
  lemma NextCodeIsNew(codes: seq<string>)
    requires NextNumber(codes) >= 0
    ensures NextCode(codes) !in codes
  {
    NextNumberAbove(codes);
    NextCodeReadsBack(codes);
  }

  /** Registering the generated code moves the next number on by one, so the codes
      generated one after the other are `AUTO-0001`, `AUTO-0002`, …. */
  lemma {:induction false} NextAfterNext(codes: seq<string>)
    requires NextNumber(codes) >= 0
    ensures NextNumber(codes + [NextCode(codes)]) == NextNumber(codes) + 1
  {
    NextCodeReadsBack(codes);
    NumbersSnoc(codes, NextCode(codes), NextNumber(codes));
    MaxOrZeroSnoc(Numbers(codes), NextNumber(codes));
  }

  lemma NumbersSnoc(codes: seq<string>, c: string, n: int)
    requires CodeNumber(c) == Some(n)
    ensures Numbers(codes + [c]) == Numbers(codes) + [n]
  {
    assert (codes + [c])[..|codes|] == codes;
  }

  lemma MaxOrZeroSnoc(nums: seq<int>, n: int)
    requires n >= MaxOrZero(nums)
    ensures MaxOrZero(nums + [n]) == n
  {
    assert (nums + [n])[..|nums|] == nums;
  }

  /** The catalogue form: a new gearbox gets the next code, an edited gearbox keeps its
      own. */
  function FormCode(editing: Option<Gearbox>, gearboxes: seq<Gearbox>): (code: string)
    ensures editing.Some? ==> code == editing.value.code
    ensures editing.None? ==> code == NextCode(Codes(gearboxes))
  {
    match editing
    case Some(g) => g.code
    case None => NextCode(Codes(gearboxes))
  }

  /** The codes of the registered gearboxes, in order. */
  function Codes(gearboxes: seq<Gearbox>): (r: seq<string>)
    ensures |r| == |gearboxes|
    ensures forall i :: 0 <= i < |r| ==> r[i] == gearboxes[i].code
  {
    seq(|gearboxes|, i requires 0 <= i < |gearboxes| => gearboxes[i].code)
  }
}
