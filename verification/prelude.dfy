/** Shared helpers: an Option type, the character classes and string operations the
    application leans on (ASCII case mapping, `includes`, `startsWith`, `trim()`-emptiness,
    `padStart`), and the decimal digit strings behind `toString`, `parseInt` and `Number`. */
module Prelude {

  datatype Option<+T> = None | Some(value: T)

  function Max(a: int, b: int): int { if a >= b then a else b }
  function Min(a: int, b: int): int { if a <= b then a else b }

  /** `Array.prototype.filter`: the elements satisfying `p`, in their order, each as many
      times as it occurs. */
  function Filter<T(!new)>(s: seq<T>, p: T -> bool): (r: seq<T>)
    ensures |r| <= |s|
    ensures forall i :: 0 <= i < |r| ==> p(r[i])
    ensures forall x :: multiset(r)[x] == if p(x) then multiset(s)[x] else 0
  {
    if |s| == 0 then []
    else
      assert s == [s[0]] + s[1..];
      (if p(s[0]) then [s[0]] else []) + Filter(s[1..], p)
  }

  /** Non-increasing under `key`. */
  predicate Descending<T>(s: seq<T>, key: T -> int) {
    forall i, j :: 0 <= i < j < |s| ==> key(s[i]) >= key(s[j])
  }

  /** Filtering keeps a non-increasing list non-increasing. */
  lemma {:induction false} FilterKeepsDescending<T(!new)>(s: seq<T>, p: T -> bool, key: T -> int)
    requires Descending(s, key)
    ensures Descending(Filter(s, p), key)
    decreases |s|
  {
    if |s| > 0 {
      FilterKeepsDescending(s[1..], p, key);
      if p(s[0]) {
        KeptHeadDescending(s, p, key);
      } else {
        assert Filter(s, p) == Filter(s[1..], p);
      }
    }
  }

  lemma KeptHeadDescending<T(!new)>(s: seq<T>, p: T -> bool, key: T -> int)
    requires |s| > 0 && p(s[0])
    requires Descending(s, key) && Descending(Filter(s[1..], p), key)
    ensures Descending(Filter(s, p), key)
  {
    var t := Filter(s[1..], p);
    HeadAtLeastRest(s, p, key);
    ConsDescending(s[0], t, key);
    assert Filter(s, p) == [s[0]] + t;
  }

  lemma ConsDescending<T>(x: T, t: seq<T>, key: T -> int)
    requires Descending(t, key)
    requires forall k :: 0 <= k < |t| ==> key(x) >= key(t[k])
    ensures Descending([x] + t, key)
  {
    var r := [x] + t;
    forall i, j | 0 <= i < j < |r| ensures key(r[i]) >= key(r[j]) {
      assert r[j] == t[j - 1];
      if i > 0 {
        assert r[i] == t[i - 1];
      }
    }
  }

  lemma HeadAtLeastRest<T(!new)>(s: seq<T>, p: T -> bool, key: T -> int)
    requires |s| > 0
    requires Descending(s, key)
    ensures forall k :: 0 <= k < |Filter(s[1..], p)| ==> key(s[0]) >= key(Filter(s[1..], p)[k])
  {
    var t := Filter(s[1..], p);
    forall k | 0 <= k < |t| ensures key(s[0]) >= key(t[k]) {
      assert t[k] in multiset(t);
      FilterMembers(s[1..], p, t[k]);
      var m :| 0 <= m < |s[1..]| && s[1..][m] == t[k];
      assert s[m + 1] == t[k];
    }
  }

  /** The concatenation of a sequence of sequences, in order. */
  function Flatten<T>(ss: seq<seq<T>>): seq<T> {
    if |ss| == 0 then [] else ss[0] + Flatten(ss[1..])
  }

  /** `Array.prototype.findIndex` from position `from`: the first index whose element
      satisfies `p`. */
  function FindFrom<T>(s: seq<T>, p: T -> bool, from: nat): (r: Option<nat>)
    requires from <= |s|
    ensures r.Some? ==> from <= r.value < |s| && p(s[r.value])
    ensures r.Some? ==> forall j :: from <= j < r.value ==> !p(s[j])
    ensures r.None? ==> forall j :: from <= j < |s| ==> !p(s[j])
    decreases |s| - from
  {
    if from == |s| then None
    else if p(s[from]) then Some(from)
    else FindFrom(s, p, from + 1)
  }

  /** `Array.prototype.find`: the first element satisfying `p`. */
  function Find<T>(s: seq<T>, p: T -> bool): (r: Option<T>)
    ensures r.None? <==> forall j :: 0 <= j < |s| ==> !p(s[j])
    ensures r.Some? ==> exists i :: 0 <= i < |s| && s[i] == r.value && p(s[i])
                                     && forall j :: 0 <= j < i ==> !p(s[j])
  {
    match FindFrom(s, p, 0)
    case None => None
    case Some(i) => Some(s[i])
  }

  lemma FilterMembers<T(!new)>(s: seq<T>, p: T -> bool, x: T)
    ensures x in Filter(s, p) <==> x in s && p(x)
  {
    assert x in Filter(s, p) <==> multiset(Filter(s, p))[x] > 0;
    assert x in s <==> multiset(s)[x] > 0;
  }

  lemma {:induction false} FilterAppend<T(!new)>(a: seq<T>, b: seq<T>, p: T -> bool)
    ensures Filter(a + b, p) == Filter(a, p) + Filter(b, p)
    decreases |a|
  {
    if |a| == 0 {
      assert a + b == b;
    } else {
      var head := if p(a[0]) then [a[0]] else [];
      calc {
        Filter(a + b, p);
        == { assert (a + b)[0] == a[0] && (a + b)[1..] == a[1..] + b; }
        head + Filter(a[1..] + b, p);
        == { FilterAppend(a[1..], b, p); }
        head + (Filter(a[1..], p) + Filter(b, p));
        == { AppendAssoc(head, Filter(a[1..], p), Filter(b, p)); }
        (head + Filter(a[1..], p)) + Filter(b, p);
        ==
        Filter(a, p) + Filter(b, p);
      }
    }
  }

  /** A prefix one longer holds one more element: the next one. */
  lemma PrefixMultiset<T>(s: seq<T>, n: nat)
    requires 0 < n <= |s|
    ensures multiset(s[..n]) == multiset(s[..n - 1]) + multiset{s[n - 1]}
  {
    assert s[..n] == s[..n - 1] + [s[n - 1]];
  }

  lemma AppendAssoc<T>(x: seq<T>, y: seq<T>, z: seq<T>)
    ensures x + (y + z) == (x + y) + z
  {
  }

  /** The filter keeps every element exactly when all of them satisfy `p`, and then
      it is the identity. */
  lemma FilterKeepsAll<T(!new)>(s: seq<T>, p: T -> bool)
    ensures |Filter(s, p)| == |s| <==> forall i :: 0 <= i < |s| ==> p(s[i])
    ensures (forall i :: 0 <= i < |s| ==> p(s[i])) ==> Filter(s, p) == s
  {
    if forall i :: 0 <= i < |s| ==> p(s[i]) {
      FilterIdentity(s, p);
    } else {
      var i :| 0 <= i < |s| && !p(s[i]);
      FilterDrops(s, p, i);
    }
  }

  lemma {:induction false} FilterIdentity<T(!new)>(s: seq<T>, p: T -> bool)
    requires forall i :: 0 <= i < |s| ==> p(s[i])
    ensures Filter(s, p) == s
    decreases |s|
  {
    if |s| > 0 {
      FilterIdentity(s[1..], p);
      assert s == [s[0]] + s[1..];
    }
  }

  lemma {:induction false} FilterDrops<T(!new)>(s: seq<T>, p: T -> bool, i: nat)
    requires i < |s| && !p(s[i])
    ensures |Filter(s, p)| < |s|
    decreases |s|
  {
    if i > 0 {
      assert s[1..][i - 1] == s[i];
      FilterDrops(s[1..], p, i - 1);
    }
  }

  /** The filter keeps nothing exactly when no element satisfies `p`. */
  lemma {:induction false} FilterKeepsNone<T(!new)>(s: seq<T>, p: T -> bool)
    ensures |Filter(s, p)| == 0 <==> forall i :: 0 <= i < |s| ==> !p(s[i])
    decreases |s|
  {
    if |s| > 0 {
      var t := s[1..];
      FilterKeepsNone(t, p);
      assert forall i :: 1 <= i < |s| ==> s[i] == t[i - 1];
      assert Filter(s, p) == (if p(s[0]) then [s[0]] else []) + Filter(t, p);
    }
  }

  // ---------------------------------------------------------------------------
  // Characters

  predicate IsDigit(c: char) { '0' <= c <= '9' }
  predicate IsUpper(c: char) { 'A' <= c <= 'Z' }
  predicate IsLower(c: char) { 'a' <= c <= 'z' }
  /** The class `[a-zA-Z0-9]`. */
  predicate IsAlnum(c: char) { IsDigit(c) || IsUpper(c) || IsLower(c) }

  /** The characters `String.prototype.trim` removes: WhiteSpace and LineTerminator. */
  predicate IsJsSpace(c: char) {
    var n := c as int;
    n == 0x09 || n == 0x0A || n == 0x0B || n == 0x0C || n == 0x0D || n == 0x20
    || n == 0xA0 || n == 0x1680 || (0x2000 <= n <= 0x200A) || n == 0x2028 || n == 0x2029
    || n == 0x202F || n == 0x205F || n == 0x3000 || n == 0xFEFF
  }

  /** `!s.trim()`: the string is empty once surrounding white space is removed. */
  predicate IsBlank(s: string) {
    forall i :: 0 <= i < |s| ==> IsJsSpace(s[i])
  }

  function UpperChar(c: char): (r: char)
    ensures IsLower(c) ==> IsUpper(r)
    ensures IsAlnum(c) ==> IsAlnum(r) && !IsLower(r)
  {
    if IsLower(c) then (c as int - 'a' as int + 'A' as int) as char else c
  }

  function LowerChar(c: char): (r: char)
    ensures IsUpper(c) ==> IsLower(r)
    ensures !IsUpper(r)
  {
    if IsUpper(c) then (c as int - 'A' as int + 'a' as int) as char else c
  }

  /** `toUpperCase`, on the ASCII letters. */
  function Upper(s: string): (r: string)
    ensures |r| == |s|
    ensures forall i :: 0 <= i < |s| ==> r[i] == UpperChar(s[i])
  {
    seq(|s|, i requires 0 <= i < |s| => UpperChar(s[i]))
  }

  /** `toLowerCase`, on the ASCII letters. */
  function Lower(s: string): (r: string)
    ensures |r| == |s|
    ensures forall i :: 0 <= i < |s| ==> r[i] == LowerChar(s[i])
  {
    seq(|s|, i requires 0 <= i < |s| => LowerChar(s[i]))
  }

  /** Case mapping works character by character, so it distributes over concatenation. */
  lemma LowerAppend(a: string, b: string)
    ensures Lower(a + b) == Lower(a) + Lower(b)
  {
    assert forall i :: 0 <= i < |a + b| ==> Lower(a + b)[i] == (Lower(a) + Lower(b))[i];
  }

  // ---------------------------------------------------------------------------
  // Substrings

  predicate StartsWith(s: string, prefix: string) {
    |prefix| <= |s| && s[..|prefix|] == prefix
  }

  /** `s.includes(sub)`: `sub` occurs in `s` at some position. */
  predicate Contains(s: string, sub: string)
    decreases |s|
  {
    StartsWith(s, sub) || (|s| > 0 && Contains(s[1..], sub))
  }

  /** `sub` occurs in `s` starting at index `i`. */
  predicate OccursAt(s: string, sub: string, i: int) {
    0 <= i <= |s| - |sub| && s[i..i + |sub|] == sub
  }

  lemma {:induction false} ContainsAt(s: string, sub: string)
    ensures Contains(s, sub) <==> exists i :: OccursAt(s, sub, i)
    decreases |s|
  {
    if |s| > 0 {
      ContainsAt(s[1..], sub);
    }
    if Contains(s, sub) {
      if StartsWith(s, sub) {
        assert OccursAt(s, sub, 0);
      } else {
        var i :| OccursAt(s[1..], sub, i);
        assert s[1..][i..i + |sub|] == s[i + 1..i + 1 + |sub|];
        assert OccursAt(s, sub, i + 1);
      }
    }
    if exists i :: OccursAt(s, sub, i) {
      var i :| OccursAt(s, sub, i);
      if i == 0 {
        assert StartsWith(s, sub);
      } else {
        assert s[1..][i - 1..i - 1 + |sub|] == s[i..i + |sub|];
        assert OccursAt(s[1..], sub, i - 1);
      }
    }
  }

  /** `includes` is transitive. */
  lemma ContainsTrans(s: string, m: string, sub: string)
    requires Contains(s, m) && Contains(m, sub)
    ensures Contains(s, sub)
  {
    ContainsAt(s, m);
    ContainsAt(m, sub);
    var i :| OccursAt(s, m, i);
    var j :| OccursAt(m, sub, j);
    assert m == s[i..i + |m|] && sub == m[j..j + |sub|];
    assert forall t :: 0 <= t < |sub| ==> sub[t] == m[j + t] == s[i + j + t];
    assert s[i + j..i + j + |sub|] == sub;
    assert OccursAt(s, sub, i + j);
    ContainsAt(s, sub);
  }

  /** Every piece of a concatenation occurs in it. */
  lemma ContainsPiece(pre: string, x: string, post: string)
    ensures Contains(pre + x + post, x)
  {
    assert (pre + x + post)[|pre|..|pre| + |x|] == x;
    assert OccursAt(pre + x + post, x, |pre|);
    ContainsAt(pre + x + post, x);
  }


  /** `String.prototype.padStart(width, c)`. */
  function PadStart(s: string, width: nat, c: char): (r: string)
    ensures |r| == Max(width, |s|)
    ensures r[|r| - |s|..] == s
    ensures forall i :: 0 <= i < |r| - |s| ==> r[i] == c
  {
    if |s| >= width then s else seq(width - |s|, _ => c) + s
  }

  // ---------------------------------------------------------------------------
  // Decimal digit strings

  function DigitChar(d: nat): (c: char)
    requires d < 10
    ensures IsDigit(c)
  {
    ('0' as int + d) as char
  }

  function DigitValue(c: char): (d: nat)
    requires IsDigit(c)
    ensures d < 10
    ensures DigitChar(d) == c
  {
    c as int - '0' as int
  }

  predicate AllDigits(s: string) {
    forall i :: 0 <= i < |s| ==> IsDigit(s[i])
  }

  /** The value of a string of decimal digits (`parseInt` / `Number` on such a string). */
  function DigitsValue(s: string): nat
    requires AllDigits(s)
  {
    if |s| == 0 then 0 else DigitsValue(s[..|s| - 1]) * 10 + DigitValue(s[|s| - 1])
  }

  /** `n.toString()` for a non-negative integer. */
  function NatToString(n: nat): (r: string)
    ensures |r| > 0
    ensures AllDigits(r)
  {
    if n < 10 then [DigitChar(n)] else NatToString(n / 10) + [DigitChar(n % 10)]
  }

  /** `n.toString()` for any integer: a minus sign in front of the magnitude. */
  function IntToString(n: int): (r: string)
    ensures n >= 0 ==> r == NatToString(n)
    ensures n < 0 ==> r == "-" + NatToString(-n)
  {
    if n >= 0 then NatToString(n) else "-" + NatToString(-n)
  }

  lemma {:induction false} NatToStringValue(n: nat)
    ensures DigitsValue(NatToString(n)) == n
  {
    var s := NatToString(n);
    if n >= 10 {
      NatToStringValue(n / 10);
      assert s[..|s| - 1] == NatToString(n / 10);
    }
  }

  lemma {:induction false} DigitsValueLeadingZeros(k: nat, s: string)
    requires AllDigits(s)
    ensures AllDigits(seq(k, _ => '0') + s)
    ensures DigitsValue(seq(k, _ => '0') + s) == DigitsValue(s)
    decreases |s|
  {
    var z := seq(k, _ => '0');
    if |s| == 0 {
      assert z + s == z;
      ZerosValue(k);
    } else {
      DigitsValueLeadingZeros(k, s[..|s| - 1]);
      assert (z + s)[..|z + s| - 1] == z + s[..|s| - 1];
    }
  }

  lemma {:induction false} ZerosValue(k: nat)
    ensures AllDigits(seq(k, _ => '0'))
    ensures DigitsValue(seq(k, _ => '0')) == 0
  {
    if k > 0 {
      ZerosValue(k - 1);
      assert seq(k, _ => '0')[..k - 1] == seq(k - 1, _ => '0');
    }
  }

  /** The longest prefix of `s` made of decimal digits, as a length. */
  function DigitRun(s: string): (n: nat)
    ensures n <= |s|
    ensures AllDigits(s[..n])
    ensures n < |s| ==> !IsDigit(s[n])
  {
    if |s| > 0 && IsDigit(s[0]) then
      var n := 1 + DigitRun(s[1..]);
      assert s[..n] == [s[0]] + s[1..][..n - 1];
      n
    else 0
  }

  lemma {:induction false} DigitRunOfDigitsThen(d: string, rest: string)
    requires AllDigits(d)
    requires |rest| == 0 || !IsDigit(rest[0])
    ensures DigitRun(d + rest) == |d|
    decreases |d|
  {
    if |d| > 0 {
      assert (d + rest)[1..] == d[1..] + rest;
      DigitRunOfDigitsThen(d[1..], rest);
    } else {
      assert d + rest == rest;
    }
  }
}
