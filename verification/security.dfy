/** The security panel: the password change form's two checks, and the audit log —
    its newest-first order, the filter by date range, action and order number, and the
    sorted list of distinct actions offered by the action selector. Strings are
    compared character by character on their code points, a proper prefix first,
    which is JavaScript's order wherever code points and UTF-16 code units agree. */
module Security {
  import opened Prelude
  import opened Types
  import opened Sorting

  // ---------------------------------------------------------------------------
  // Password change

  /** `s.length`: UTF-16 code units, two for a character outside the Basic
      Multilingual Plane. */
  function Utf16Length(s: string): (n: nat)
    ensures |s| <= n <= 2 * |s|
  {
    if |s| == 0 then 0
    else Utf16Length(s[..|s| - 1]) + (if s[|s| - 1] as int > 0xFFFF then 2 else 1)
  }

  datatype PasswordOutcome = TooShort | Mismatch | Update

  /** `handlePasswordChange`: a password shorter than 6 is refused first, then one
      that differs from its confirmation; only then is the password updated. */
  function ChangePassword(password: string, confirmation: string): (r: PasswordOutcome)
    ensures r == TooShort <==> Utf16Length(password) < 6
    ensures r == Mismatch <==> Utf16Length(password) >= 6 && password != confirmation
    ensures r == Update <==> Utf16Length(password) >= 6 && password == confirmation
  {
    if Utf16Length(password) < 6 then TooShort
    else if password != confirmation then Mismatch
    else Update
  }

  /** An accepted password has at least three characters, and at least six when
      every character lies in the Basic Multilingual Plane. */
  lemma {:induction false} AcceptedPasswordLength(password: string, confirmation: string)
    requires ChangePassword(password, confirmation) == Update
    ensures |password| >= 3
    ensures (forall i :: 0 <= i < |password| ==> password[i] as int <= 0xFFFF) ==> |password| >= 6
  {
    if forall i :: 0 <= i < |password| ==> password[i] as int <= 0xFFFF {
      PlaneLength(password);
    }
  }

  lemma {:induction false} PlaneLength(s: string)
    requires forall i :: 0 <= i < |s| ==> s[i] as int <= 0xFFFF
    ensures Utf16Length(s) == |s|
    decreases |s|
  {
    if |s| > 0 {
      PlaneLength(s[..|s| - 1]);
    }
  }

  // ---------------------------------------------------------------------------
  // String order

  /** `a < b` on strings. */
  function LexLt(a: string, b: string): (r: bool)
    ensures r ==> a != b
    ensures |a| < |b| && a == b[..|a|] ==> r
    ensures |b| <= |a| && b == a[..|b|] ==> !r
    decreases |a|
  {
    if |a| == 0 then |b| > 0
    else if |b| == 0 then false
    else if a[0] < b[0] then true
    else if a[0] == b[0] then LexLt(a[1..], b[1..])
    else false
  }

  lemma {:induction false} LexLtIrreflexive(a: string)
    ensures !LexLt(a, a)
    decreases |a|
  {
    if |a| > 0 {
      LexLtIrreflexive(a[1..]);
    }
  }

  lemma {:induction false} LexLtTransitive(a: string, b: string, c: string)
    requires LexLt(a, b) && LexLt(b, c)
    ensures LexLt(a, c)
    decreases |a|
  {
    if |a| > 0 && |b| > 0 && |c| > 0 && a[0] == b[0] == c[0] {
      LexLtTransitive(a[1..], b[1..], c[1..]);
    }
  }

  lemma {:induction false} LexLtTotal(a: string, b: string)
    requires a != b
    ensures LexLt(a, b) || LexLt(b, a)
    decreases |a|
  {
    if |a| > 0 && |b| > 0 && a[0] == b[0] {
      assert a == [a[0]] + a[1..] && b == [b[0]] + b[1..];
      LexLtTotal(a[1..], b[1..]);
    }
  }

  lemma {:induction false} LexLtAsymmetric(a: string, b: string)
    requires LexLt(a, b)
    ensures !LexLt(b, a)
  {
    if LexLt(b, a) {
      LexLtTransitive(a, b, a);
      LexLtIrreflexive(a);
    }
  }

  // ---------------------------------------------------------------------------
  // Audit log

  function Timestamp(l: HistoryLog): int { l.timestamp }

  /** The comparator `b.timestamp - a.timestamp` as a sort key. */
  function NewestFirst(l: HistoryLog): Key { Key(-l.timestamp, 0) }

  /** `sortedHistory`: newest first; entries of the same instant keep their order. */
  function SortedHistory(history: seq<HistoryLog>): (r: seq<HistoryLog>)
    ensures multiset(r) == multiset(history)
    ensures Descending(r, Timestamp)
    ensures forall k :: KeepKey(r, NewestFirst, k) == KeepKey(history, NewestFirst, k)
  {
    var r := SortBy(history, NewestFirst);
    assert forall i, j :: 0 <= i < j < |r| ==> KeyLe(NewestFirst(r[i]), NewestFirst(r[j]));
    r
  }

  /** The filter of the log view: the entry's local date lies between the applied
      start and end dates as strings; its action is the selected one, when one is
      selected; its order id contains the typed order number, when one is typed. */
  predicate LogShown(log: HistoryLog, start: string, end: string, action: string, os: string) {
    && !LexLt(log.localDate, start) && !LexLt(end, log.localDate)
    && (action == "" || log.action == action)
    && (os == "" || Contains(log.orderId, os))
  }

  /** The log filter as a function value. */
  function ShownBy(start: string, end: string, action: string, os: string): HistoryLog -> bool {
    (l: HistoryLog) => LogShown(l, start, end, action, os)
  }

  /** `filteredHistory`: the entries shown, newest first. */
  function FilteredHistory(history: seq<HistoryLog>, start: string, end: string, action: string, os: string)
    : (r: seq<HistoryLog>)
    ensures forall l :: l in r <==> l in history && LogShown(l, start, end, action, os)
    ensures forall l :: multiset(r)[l] == if LogShown(l, start, end, action, os) then multiset(history)[l] else 0
    ensures Descending(r, Timestamp)
    ensures forall k :: KeepKey(r, NewestFirst, k) == Filter(KeepKey(history, NewestFirst, k), ShownBy(start, end, action, os))
  {
    var sorted := SortedHistory(history);
    var p := ShownBy(start, end, action, os);
    ShownMembers(history, sorted, p);
    FilterKeepsDescending(sorted, p, Timestamp);
    forall k ensures KeepKey(Filter(sorted, p), NewestFirst, k) == Filter(KeepKey(history, NewestFirst, k), p) {
      KeepKeyFilter(sorted, NewestFirst, k, p);
    }
    Filter(sorted, p)
  }

  /** Keeping one key and filtering commute: both keep a subsequence. */
  lemma {:induction false} KeepKeyFilter<T(!new)>(s: seq<T>, key: T -> Key, k: Key, p: T -> bool)
    ensures KeepKey(Filter(s, p), key, k) == Filter(KeepKey(s, key, k), p)
    decreases |s|
  {
    if |s| > 0 {
      KeepKeyFilter(s[1..], key, k, p);
      FilterThenKeep(s, key, k, p);
      KeepThenFilter(s, key, k, p);
    }
  }

  /** Filtering, then keeping one key, takes the first element exactly when it passes both. */
  lemma FilterThenKeep<T(!new)>(s: seq<T>, key: T -> Key, k: Key, p: T -> bool)
    requires |s| > 0
    ensures KeepKey(Filter(s, p), key, k)
            == (if p(s[0]) && key(s[0]) == k then [s[0]] else []) + KeepKey(Filter(s[1..], p), key, k)
  {
    var x, f := s[0], Filter(s[1..], p);
    if p(x) {
      assert Filter(s, p) == [x] + f;
      KeepKeyCons(x, f, key, k);
    } else {
      assert Filter(s, p) == [] + f == f;
      assert [] + KeepKey(f, key, k) == KeepKey(f, key, k);
    }
  }

  /** Keeping one key, then filtering, takes the first element exactly when it passes both. */
  lemma KeepThenFilter<T(!new)>(s: seq<T>, key: T -> Key, k: Key, p: T -> bool)
    requires |s| > 0
    ensures Filter(KeepKey(s, key, k), p)
            == (if p(s[0]) && key(s[0]) == k then [s[0]] else []) + Filter(KeepKey(s[1..], key, k), p)
  {
    var x, kept := s[0], KeepKey(s[1..], key, k);
    if key(x) == k {
      assert KeepKey(s, key, k) == [x] + kept;
      FilterCons(x, kept, p);
    } else {
      assert KeepKey(s, key, k) == [] + kept == kept;
      assert [] + Filter(kept, p) == Filter(kept, p);
    }
  }

  lemma KeepKeyCons<T>(x: T, t: seq<T>, key: T -> Key, k: Key)
    ensures KeepKey([x] + t, key, k) == (if key(x) == k then [x] else []) + KeepKey(t, key, k)
  {
    assert ([x] + t)[0] == x && ([x] + t)[1..] == t;
  }

  lemma FilterCons<T(!new)>(x: T, t: seq<T>, p: T -> bool)
    ensures Filter([x] + t, p) == (if p(x) then [x] else []) + Filter(t, p)
  {
    assert ([x] + t)[0] == x && ([x] + t)[1..] == t;
  }


  lemma ShownMembers(history: seq<HistoryLog>, sorted: seq<HistoryLog>, p: HistoryLog -> bool)
    requires multiset(sorted) == multiset(history)
    ensures forall l :: l in Filter(sorted, p) <==> l in history && p(l)
  {
    forall l ensures l in Filter(sorted, p) <==> l in history && p(l) {
      FilterMembers(sorted, p, l);
      assert l in sorted <==> l in multiset(sorted);
      assert l in history <==> l in multiset(history);
    }
  }

  /** A range whose end comes before its start shows nothing. */
  lemma EmptyRange(history: seq<HistoryLog>, start: string, end: string, action: string, os: string)
    requires LexLt(end, start)
    ensures FilteredHistory(history, start, end, action, os) == []
  {
    var r := FilteredHistory(history, start, end, action, os);
    if |r| > 0 {
      assert r[0] in r;
      NotBetween(r[0].localDate, start, end);
    }
  }

  lemma NotBetween(d: string, start: string, end: string)
    requires LexLt(end, start)
    ensures LexLt(d, start) || LexLt(end, d)
  {
    LexLtAsymmetric(end, start);
    if d != start && d != end && !LexLt(d, start) {
      LexLtTotal(d, start);
      LexLtTransitive(end, start, d);
    }
  }

  // ---------------------------------------------------------------------------
  // Distinct actions

  predicate StrictlySorted(s: seq<string>) {
    forall i, j :: 0 <= i < j < |s| ==> LexLt(s[i], s[j])
  }

  /** Adds `x` to a strictly sorted list, in its place, unless it is there already. */
  function InsertAction(x: string, s: seq<string>): (r: seq<string>)
    requires StrictlySorted(s)
    ensures StrictlySorted(r)
    ensures forall y :: y in r <==> y == x || y in s
  {
    if |s| == 0 then [x]
    else if x == s[0] then s
    else if LexLt(x, s[0]) then
      assert forall j :: 0 < j < |s| ==> LexLt(x, s[j]) by {
        forall j | 0 < j < |s| ensures LexLt(x, s[j]) {
          LexLtTransitive(x, s[0], s[j]);
        }
      }
      [x] + s
    else
      LexLtTotal(x, s[0]);
      var t := InsertAction(x, s[1..]);
      assert forall k :: 0 <= k < |t| ==> LexLt(s[0], t[k]) by {
        forall k | 0 <= k < |t| ensures LexLt(s[0], t[k]) {
          assert t[k] in t;
          if t[k] != x {
            var m :| 0 <= m < |s[1..]| && s[1..][m] == t[k];
            assert s[m + 1] == t[k];
          }
        }
      }
      assert s == [s[0]] + s[1..];
      [s[0]] + t
  }

  /** The actions of the first `k` entries, distinct and sorted. */
  function ActionsUpTo(history: seq<HistoryLog>, k: nat): (r: seq<string>)
    requires k <= |history|
    ensures StrictlySorted(r)
    ensures forall a :: a in r <==> exists i :: 0 <= i < k && history[i].action == a
  {
    if k == 0 then [] else InsertAction(history[k - 1].action, ActionsUpTo(history, k - 1))
  }

  /** `uniqueActions`: `Array.from(new Set(actions)).sort()`. */
  function UniqueActions(history: seq<HistoryLog>): (r: seq<string>)
    ensures StrictlySorted(r)
    ensures forall i, j :: 0 <= i < j < |r| ==> r[i] != r[j]
    ensures forall a :: a in r <==> exists i :: 0 <= i < |history| && history[i].action == a
  {
    var r := ActionsUpTo(history, |history|);
    assert forall i, j :: 0 <= i < j < |r| ==> r[i] != r[j] by {
      forall i, j | 0 <= i < j < |r| ensures r[i] != r[j] {
        if r[i] == r[j] {
          LexLtIrreflexive(r[i]);
        }
      }
    }
    r
  }

  /** Two strictly sorted lists with the same elements are equal. */
  lemma {:induction false} SortedSetUnique(a: seq<string>, b: seq<string>)
    requires StrictlySorted(a) && StrictlySorted(b)
    requires forall x :: x in a <==> x in b
    ensures a == b
    decreases |a|
  {
    if |a| > 0 && |b| > 0 {
      NotBelowHead(a, b);
      NotBelowHead(b, a);
      forall x ensures x in a[1..] <==> x in b[1..] {
        if x in a[1..] {
          var m :| 1 <= m < |a| && a[m] == x;
          assert x != a[0] by { LexLtIrreflexive(a[0]); }
        }
        if x in b[1..] {
          var m :| 1 <= m < |b| && b[m] == x;
          assert x != b[0] by { LexLtIrreflexive(b[0]); }
        }
        assert x in a <==> x == a[0] || x in a[1..] by { assert a == [a[0]] + a[1..]; }
        assert x in b <==> x == b[0] || x in b[1..] by { assert b == [b[0]] + b[1..]; }
      }
      SortedSetUnique(a[1..], b[1..]);
      assert a == [a[0]] + a[1..] && b == [b[0]] + b[1..];
    } else if |a| > 0 {
      HeadIn(a);
    } else if |b| > 0 {
      HeadIn(b);
    }
  }

  lemma HeadIn(s: seq<string>)
    requires |s| > 0
    ensures s[0] in s
  {
  }

  /** The head of `a`, being in the strictly sorted `b`, is not below `b`'s head. */
  lemma NotBelowHead(a: seq<string>, b: seq<string>)
    requires StrictlySorted(b) && |a| > 0 && a[0] in b
    ensures |b| > 0 && !LexLt(a[0], b[0])
  {
    var m :| 0 <= m < |b| && b[m] == a[0];
    if m == 0 {
      LexLtIrreflexive(a[0]);
    } else {
      LexLtAsymmetric(b[0], b[m]);
    }
  }

  /** The action list does not depend on the order of the log. */
  lemma UniqueActionsIgnoreOrder(h1: seq<HistoryLog>, h2: seq<HistoryLog>)
    requires multiset(h1) == multiset(h2)
    ensures UniqueActions(h1) == UniqueActions(h2)
  {
    var a := UniqueActions(h1);
    var b := UniqueActions(h2);
    forall x ensures x in a <==> x in b {
      if x in a {
        var i :| 0 <= i < |h1| && h1[i].action == x;
        assert h1[i] in multiset(h2);
        var j :| 0 <= j < |h2| && h2[j] == h1[i];
      }
      if x in b {
        var j :| 0 <= j < |h2| && h2[j].action == x;
        assert h2[j] in multiset(h1);
        var i :| 0 <= i < |h1| && h1[i] == h2[j];
      }
    }
    SortedSetUnique(a, b);
  }
}
