/** Times of day as the booking screen writes and reads them: "HH:MM" strings built
    with `padStart(2, '0')`, and `toMins`, which splits at ':' and reads both halves
    with `Number`. */
module Clock {
  import opened Prelude

  /** The first index of `c` in `s` at or after `from`. */
  function IndexFrom(s: string, c: char, from: nat): (r: Option<nat>)
    requires from <= |s|
    ensures r.Some? ==> from <= r.value < |s| && s[r.value] == c
    ensures r.Some? ==> forall j :: from <= j < r.value ==> s[j] != c
    ensures r.None? <==> forall j :: from <= j < |s| ==> s[j] != c
    decreases |s| - from
  {
    if from == |s| then None
    else if s[from] == c then Some(from)
    else IndexFrom(s, c, from + 1)
  }

  /** `s.split(':')[0]` and `s.split(':')[1]`; `None` when there is no second piece. */
  function HourAndMinutePieces(s: string): (r: Option<(string, string)>)
    ensures r.None? <==> ':' !in s
    ensures r.Some? ==> ':' !in r.value.0 && ':' !in r.value.1
  {
    match IndexFrom(s, ':', 0)
    case None => None
    case Some(i) =>
      var end := match IndexFrom(s, ':', i + 1) case None => |s| case Some(k) => k;
      Some((s[..i], s[i + 1..end]))
  }

  /** `Number(piece)` on a piece made of decimal digits (the empty piece is 0); any
      other piece is `NaN`, written `None`. */
  function NumberOf(piece: string): (r: Option<nat>)
    ensures r.Some? <==> AllDigits(piece)
  {
    if AllDigits(piece) then Some(DigitsValue(piece)) else None
  }

  /** `toMins(t)`: hours times 60 plus minutes, `NaN` when either half is not a number
      or there is no ':'. */
  function ParseClock(t: string): (r: Option<nat>)
    ensures ':' !in t ==> r.None?
  {
    match HourAndMinutePieces(t)
    case None => None
    case Some(pieces) =>
      var h := NumberOf(pieces.0);
      var m := NumberOf(pieces.1);
      if h.Some? && m.Some? then Some(h.value * 60 + m.value) else None
  }

  /** A number as at least two digits, `n.toString().padStart(2, '0')`. */
  function TwoDigits(n: nat): (r: string)
    ensures |r| >= 2 && AllDigits(r)
    ensures n < 100 ==> |r| == 2
  {
    var d := NatToString(n);
    var r := PadStart(d, 2, '0');
    assert r == seq(|r| - |d|, _ => '0') + d;
    DigitsValueLeadingZeros(|r| - |d|, d);
    ShortNumber(n);
    r
  }

  /** Numbers below 100 take at most two digits. */
  lemma ShortNumber(n: nat)
    ensures n < 100 ==> |NatToString(n)| <= 2
  {
    if 10 <= n < 100 {
      assert |NatToString(n / 10)| == 1;
    }
  }

  lemma NoColonInDigits(s: string)
    requires AllDigits(s)
    ensures ':' !in s
  {
  }

  /** `${hh.padStart(2, '0')}:${mm.padStart(2, '0')}` of a minute count. */
  function FormatClock(m: nat): (r: string)
    ensures |r| == |TwoDigits(m / 60)| + 1 + |TwoDigits(m % 60)| >= 5
    ensures r[|TwoDigits(m / 60)|] == ':'
    ensures m < 6000 ==> |r| == 5 && r[2] == ':'
  {
    TwoDigits(m / 60) + ":" + TwoDigits(m % 60)
  }

  lemma TwoDigitsValue(n: nat)
    ensures DigitsValue(TwoDigits(n)) == n
  {
    var d := NatToString(n);
    var r := TwoDigits(n);
    assert r == seq(|r| - |d|, _ => '0') + d;
    DigitsValueLeadingZeros(|r| - |d|, d);
    NatToStringValue(n);
  }

  /** `a:b` splits into `a` and `b` when neither contains ':'. */
  lemma PiecesOf(a: string, b: string)
    requires ':' !in a && ':' !in b
    ensures HourAndMinutePieces(a + ":" + b) == Some((a, b))
  {
    var s := a + ":" + b;
    assert s[|a|] == ':';
    assert forall j :: 0 <= j < |a| ==> s[j] == a[j];
    assert forall j :: |a| < j < |s| ==> s[j] == b[j - |a| - 1];
    assert IndexFrom(s, ':', 0) == Some(|a|);
    assert IndexFrom(s, ':', |a| + 1) == None;
    assert s[..|a|] == a;
    assert s[|a| + 1..|s|] == b;
  }

  /** Two digit strings joined by ':' read as hours and minutes. */
  lemma ParseDigitPieces(a: string, b: string)
    requires AllDigits(a) && AllDigits(b)
    ensures ParseClock(a + ":" + b) == Some(DigitsValue(a) * 60 + DigitsValue(b))
  {
    NoColonInDigits(a);
    NoColonInDigits(b);
    PiecesOf(a, b);
    ParseOfPieces(a + ":" + b, a, b);
  }

  lemma ParseOfPieces(t: string, a: string, b: string)
    requires HourAndMinutePieces(t) == Some((a, b))
    requires AllDigits(a) && AllDigits(b)
    ensures ParseClock(t) == Some(DigitsValue(a) * 60 + DigitsValue(b))
  {
  }

  /** Reading a formatted time gives back its minutes: `toMins(format(m)) == m`. */
  lemma ParseFormat(m: nat)
    ensures ParseClock(FormatClock(m)) == Some(m)
  {
    HoursAndMinutes(m);
    ParseFormatParts(m, m / 60, m % 60);
  }

  lemma ParseFormatParts(m: nat, h: nat, mm: nat)
    requires h == m / 60 && mm == m % 60 && h * 60 + mm == m
    ensures ParseClock(FormatClock(m)) == Some(m)
  {
    TwoDigitsValue(h);
    TwoDigitsValue(mm);
    ParseJoined(FormatClock(m), TwoDigits(h), TwoDigits(mm), h, mm);
  }

  lemma ParseJoined(t: string, a: string, b: string, h: nat, mm: nat)
    requires t == a + ":" + b && AllDigits(a) && AllDigits(b)
    requires DigitsValue(a) == h && DigitsValue(b) == mm
    ensures ParseClock(t) == Some(h * 60 + mm)
  {
    ParseDigitPieces(a, b);
  }

  lemma HoursAndMinutes(m: nat)
    ensures (m / 60) * 60 + m % 60 == m
  {
  }

  /** Distinct minute counts are written differently. */
  lemma FormatInjective(m: nat, n: nat)
    requires FormatClock(m) == FormatClock(n)
    ensures m == n
  {
    ParseFormat(m);
    ParseFormat(n);
  }
}
