/** The time notation as a grammar: the language of the regular expression in
    tests/config_sysfs.py, its values, and its agreement with the table-driven scanner. */
module TimeGrammar {
  import opened Base
  import opened Decimal
  import opened TimeText

  /** The digits of the four optional groups (hours to milliseconds); "" is an absent group. */
  type Fields = ds: seq<string> | |ds| == 4 && forall k | 0 <= k < 4 :: AllDigits(ds[k])
    witness ["", "", "", ""]

  /** The text of the groups from `k` on. */
  function Text(ds: Fields, k: nat): string
    requires k <= 4
    decreases 4 - k
  {
    if k == 4 then ""
    else if ds[k] == "" then Text(ds, k + 1)
    else ds[k] + Unit(k) + Text(ds, k + 1)
  }

  /** The milliseconds of the groups from `k` on, read in 64 bits. */
  function Sum(ds: Fields, k: nat): nat
    requires k <= 4
    decreases 4 - k
  {
    if k == 4 then 0 else Times(WrapVal(ds[k]), k) + Sum(ds, k + 1)
  }

  predicate InLimits(ds: Fields, k: nat)
    requires k <= 4
    decreases 4 - k
  {
    k == 4 || (WrapVal(ds[k]) <= Max(k) && InLimits(ds, k + 1))
  }

  /** The scanner's language: `w` is a time text worth `t` milliseconds. */
  ghost predicate Denotes(w: string, t: nat) {
    exists ds: Fields :: DenotesBy(w, t, ds)
  }

  ghost predicate DenotesBy(w: string, t: nat, ds: Fields) {
    w == Text(ds, 0) && InLimits(ds, 0) && t == Sum(ds, 0) && 1 <= t <= UINT_MAX
  }

  /** The first group at or after `k` that is present. */
  function First(ds: Fields, k: nat): (u: nat)
    requires k <= 4
    ensures k <= u <= 4
    ensures u < 4 ==> ds[u] != ""
    decreases 4 - k
  {
    if k == 4 || ds[k] != "" then k else First(ds, k + 1)
  }

  /** Absent groups add no text, no value and no limit. */
  lemma {:induction false} Skip(ds: Fields, k: nat)
    requires k <= 4
    ensures Text(ds, k) == Text(ds, First(ds, k))
    ensures Sum(ds, k) == Sum(ds, First(ds, k))
    ensures InLimits(ds, k) == InLimits(ds, First(ds, k))
    ensures forall j | k <= j < First(ds, k) :: ds[j] == ""
    ensures First(ds, k) == 4 <==> Text(ds, k) == ""
    decreases 4 - k
  {
    if k < 4 && ds[k] == "" {
      Skip(ds, k + 1);
    }
  }

  lemma {:induction false} DigitEndOf(s: string, i: nat, d: string)
    requires AllDigits(d)
    requires i + |d| <= |s| && s[i..i + |d|] == d
    requires !IsDigit(At(s, i + |d|))
    ensures DigitEnd(s, i) == i + |d|
    decreases |d|
  {
    if d != "" {
      assert s[i] == d[0];
      assert s[i + 1..i + |d|] == d[1..];
      DigitEndOf(s, i + 1, d[1..]);
    }
  }

  lemma TextStart(ds: Fields, k: nat)
    requires k <= 4 && Text(ds, k) != ""
    ensures IsDigit(Text(ds, k)[0])
  {
    Skip(ds, k);
    var u := First(ds, k);
    assert Text(ds, k)[0] == ds[u][0];
  }

  /** What follows a unit is a digit or a separator, never a letter. */
  lemma AfterUnit(s: string, i: nat, ds: Fields, k: nat, end: nat)
    requires k <= 4 && i <= end <= |s|
    requires s[i..end] == Text(ds, k) && IsSep(At(s, end))
    ensures if Text(ds, k) == "" then i == end else IsDigit(At(s, i)) && !IsSep(At(s, i))
    ensures !IsAlpha(At(s, i))
  {
    if Text(ds, k) != "" {
      TextStart(ds, k);
      assert s[i] == Text(ds, k)[0];
    } else {
      assert |s[i..end]| == 0;
    }
  }

  lemma UnitAtIs(s: string, e: nat, u: nat)
    requires u < 4 && e + UnitLen(u) <= |s|
    requires s[e..e + UnitLen(u)] == Unit(u)
    requires !IsAlpha(At(s, e + UnitLen(u)))
    ensures UnitAt(s, e, u)
    ensures forall v | 0 <= v < u :: !UnitAt(s, e, v)
  {
    assert s[e] == Unit(u)[0];
    if u == 3 {
      assert s[e + 1] == Unit(u)[1];
    }
  }

  lemma {:induction false} MatchUnitIs(s: string, e: nat, k: nat, u: nat)
    requires k <= u < 4 && UnitAt(s, e, u)
    requires forall v | 0 <= v < u :: !UnitAt(s, e, v)
    ensures MatchUnit(s, e, k) == u
    decreases u - k
  {
    if k < u {
      MatchUnitIs(s, e, k + 1, u);
    }
  }

  lemma Pieces(s: string, i: nat, end: nat, a: string, b: string, c: string)
    requires i <= end <= |s| && s[i..end] == a + b + c
    ensures i + |a| + |b| + |c| == end
    ensures s[i..i + |a|] == a
    ensures s[i + |a|..i + |a| + |b|] == b
    ensures s[i + |a| + |b|..end] == c
  {
    var t := s[i..end];
    assert s[i..i + |a|] == t[..|a|];
    assert t[..|a| + |b|] == a + b;
    assert forall j | 0 <= j < |b| :: s[i + |a| + j] == t[|a| + j] == b[j];
    assert s[i + |a| + |b|..end] == t[|a| + |b|..];
  }

  /** Where a grammar text stands, its first present group spans `i..e` and its unit `e..n`. */
  lemma Split(s: string, i: nat, ds: Fields, k: nat, end: nat) returns (u: nat, e: nat, n: nat)
    requires k <= 4 && i <= end <= |s|
    requires s[i..end] == Text(ds, k) != ""
    ensures u == First(ds, k) < 4 && i < e == i + |ds[u]| && n == e + UnitLen(u) <= end
    ensures s[i..e] == ds[u] && s[e..n] == Unit(u) && s[n..end] == Text(ds, u + 1)
  {
    Skip(ds, k);
    u := First(ds, k);
    e := i + |ds[u]|;
    n := e + UnitLen(u);
    Pieces(s, i, end, ds[u], Unit(u), Text(ds, u + 1));
  }

  /** The scanner's round reads exactly the first present group. */
  lemma Head(s: string, i: nat, ds: Fields, k: nat, end: nat) returns (u: nat, e: nat, n: nat)
    requires k <= 4 && i <= end <= |s|
    requires s[i..end] == Text(ds, k) != "" && IsSep(At(s, end))
    ensures u == First(ds, k) < 4 && i < e == DigitEnd(s, i) && n == e + UnitLen(u) <= end
    ensures s[i..e] == ds[u] && MatchUnit(s, e, k) == u && s[n..end] == Text(ds, u + 1)
  {
    hide Text, MatchUnit, UnitAt, DigitEnd, IsSep, IsAlpha, First;
    u, e, n := Split(s, i, ds, k, end);
    AfterUnit(s, n, ds, u + 1, end);
    UnitAtIs(s, e, u);
    MatchUnitIs(s, e, k, u);
    UnitIsNoDigit(s, e, u);
    DigitEndOf(s, i, ds[u]);
  }

  lemma UnitIsNoDigit(s: string, e: nat, u: nat)
    requires u < 4 && e + UnitLen(u) <= |s| && s[e..e + UnitLen(u)] == Unit(u)
    ensures !IsDigit(At(s, e))
  {
    assert s[e] == Unit(u)[0];
  }

  /** On a text of the grammar the scanner accepts exactly the values within the limits,
      with the sum of the groups as result and the separator as end. */
  lemma {:induction false} ScanText(s: string, i: nat, ds: Fields, k: nat, end: nat, acc: nat, start: nat)
    requires k < 4 && i <= end <= |s| && acc <= UINT_MAX
    requires s[i..end] == Text(ds, k) != "" && IsSep(At(s, end))
    ensures InLimits(ds, k) && acc + Sum(ds, k) <= UINT_MAX ==>
      ScanFrom(s, i, k, acc, start) == Scan(acc + Sum(ds, k), end)
    ensures !(InLimits(ds, k) && acc + Sum(ds, k) <= UINT_MAX) ==> ScanFrom(s, i, k, acc, start).time == 0
    decreases 4 - k
  {
    hide ScanFrom, DigitEnd, MatchUnit, Times, Text, Max, IsSep;
    Skip(ds, k);
    var u, e, n := Head(s, i, ds, k, end);
    Round(s, i, k, acc, start, e, Strtoull(s, i), u, n);
    var gain := Times(WrapVal(ds[u]), u);
    assert Sum(ds, k) == gain + Sum(ds, u + 1);
    assert InLimits(ds, k) <==> WrapVal(ds[u]) <= Max(u) && InLimits(ds, u + 1);
    AfterUnit(s, n, ds, u + 1, end);
    Skip(ds, u + 1);
    if Text(ds, u + 1) == "" {
      LastGroup(ds, u + 1);
    } else if WrapVal(ds[u]) <= Max(u) && acc + gain <= UINT_MAX {
      ScanText(s, n, ds, u + 1, end, acc + gain, start);
    }
  }

  lemma LastGroup(ds: Fields, k: nat)
    requires k <= 4 && Text(ds, k) == ""
    ensures Sum(ds, k) == 0 && InLimits(ds, k)
  {
    Skip(ds, k);
  }

  lemma {:induction false} TextAgree(ds: Fields, ds': Fields, k: nat)
    requires k <= 4 && forall j | k <= j < 4 :: ds[j] == ds'[j]
    ensures Text(ds, k) == Text(ds', k)
    decreases 4 - k
  {
    if k < 4 {
      TextAgree(ds, ds', k + 1);
    }
  }

  lemma UnitRead(s: string, e: nat, u: nat)
    requires u < 4 && UnitAt(s, e, u)
    ensures s[e..e + UnitLen(u)] == Unit(u)
  {
    assert s[e] == Unit(u)[0];
  }

  /** Whatever the scanner accepts is a text of the grammar, read up to a separator. */
  lemma {:induction false} ScanSound(s: string, i: nat, k: nat, acc: nat, start: nat) returns (ds: Fields)
    requires k < 4 && i <= |s|
    requires ScanFrom(s, i, k, acc, start).time != 0
    ensures var end := ScanFrom(s, i, k, acc, start).end;
      i <= end <= |s| && s[i..end] == Text(ds, k) != "" && IsSep(At(s, end))
    ensures forall j | 0 <= j < k :: ds[j] == ""
    decreases |s| - i
  {
    hide ScanFrom, DigitEnd, MatchUnit, UnitAt, Times, Text, Max, Strtoull;
    var e := DigitEnd(s, i);
    var u := MatchUnit(s, e, k);
    Round(s, i, k, acc, start, e, Strtoull(s, i), u, e + UnitLen(u));
    var n := e + UnitLen(u);
    var end := ScanFrom(s, i, k, acc, start).end;
    var rest: Fields := ["", "", "", ""];
    if u + 1 < 4 && !IsSep(At(s, n)) {
      rest := ScanSound(s, n, u + 1, acc + Times(Strtoull(s, i), u), start);
    } else {
      Skip(rest, u + 1);
    }
    UnitRead(s, e, u);
    ds := Prepend(rest, u, s[i..e], k);
    assert s[i..n] == s[i..e] + s[e..n];
    assert s[i..end] == s[i..n] + s[n..end];
  }

  /** Putting a group in front of later ones puts its text in front of theirs. */
  lemma Prepend(rest: Fields, u: nat, d: string, k: nat) returns (ds: Fields)
    requires k <= u < 4 && d != "" && AllDigits(d) && forall j | 0 <= j <= u :: rest[j] == ""
    ensures ds == rest[u := d]
    ensures Text(ds, k) == d + Unit(u) + Text(rest, u + 1)
  {
    ds := rest[u := d];
    TextAgree(ds, rest, u + 1);
    Skip(ds, k);
  }

  /** A text worth a positive time has at least one group. */
  lemma NotEmpty(ds: Fields)
    requires Sum(ds, 0) > 0
    ensures Text(ds, 0) != ""
  {
    Skip(ds, 0);
  }

  /** The scanner, started at `i` before the first '=' of the text, succeeds up to that '='
      with `t` exactly when the text in between is a time text worth `t`. */
  lemma ScanIffDenotes(s: string, i: nat, end: nat, t: nat)
    requires i <= end < |s| && s[end] == '=' && forall j | i <= j < end :: s[j] != '='
    ensures (var r := ScanFrom(s, i, 0, 0, i); r.time == t != 0 && At(s, r.end) == '=')
      <==> Denotes(s[i..end], t)
    ensures Denotes(s[i..end], t) ==> ScanFrom(s, i, 0, 0, i).end == end
  {
    hide ScanFrom, Denotes;
    if ScanFrom(s, i, 0, 0, i).time == t != 0 && At(s, ScanFrom(s, i, 0, 0, i).end) == '=' {
      AcceptedDenotes(s, i, end, t);
    }
    if Denotes(s[i..end], t) {
      DenotedAccepted(s, i, end, t);
    }
  }

  lemma AcceptedDenotes(s: string, i: nat, end: nat, t: nat)
    requires i <= end < |s| && s[end] == '=' && forall j | i <= j < end :: s[j] != '='
    requires ScanFrom(s, i, 0, 0, i).time == t != 0 && At(s, ScanFrom(s, i, 0, 0, i).end) == '='
    ensures ScanFrom(s, i, 0, 0, i).end == end && Denotes(s[i..end], t)
  {
    hide ScanFrom, Text, Sum, InLimits;
    var e := ScanFrom(s, i, 0, 0, i).end;
    var ds := ScanSound(s, i, 0, 0, i);
    ScanText(s, i, ds, 0, e, 0, i);
    NoEquals(ds, 0);
    assert forall j | i <= j < e :: s[j] == s[i..e][j - i];
    assert e == end;
    assert DenotesBy(s[i..end], t, ds);
  }

  lemma DenotedAccepted(s: string, i: nat, end: nat, t: nat)
    requires i <= end < |s| && s[end] == '=' && Denotes(s[i..end], t)
    ensures ScanFrom(s, i, 0, 0, i) == Scan(t, end) && t != 0
  {
    hide ScanFrom, Text, Sum, InLimits;
    var ds :| DenotesBy(s[i..end], t, ds);
    NotEmpty(ds);
    ScanText(s, i, ds, 0, end, 0, i);
  }

  lemma {:induction false} NoEquals(ds: Fields, k: nat)
    requires k <= 4
    ensures forall i | 0 <= i < |Text(ds, k)| :: IsDigit(Text(ds, k)[i]) || Text(ds, k)[i] in "hms"
    decreases 4 - k
  {
    if k < 4 {
      NoEquals(ds, k + 1);
    }
  }

  // ---- The regular-expression check of tests/config_sysfs.py ----

  /** `check_async_key("timer:" + w)` succeeds, finding `t` milliseconds. A match of the regular
      expression is a choice of groups whose text is all of `w`; numbers are unbounded there. */
  ghost predicate CheckAsyncKey(w: string, t: nat) {
    exists ds: Fields :: CheckAsyncKeyBy(w, t, ds)
  }

  ghost predicate CheckAsyncKeyBy(w: string, t: nat, ds: Fields) {
    var h, m, s, ms := DigitsVal(ds[0]), DigitsVal(ds[1]), DigitsVal(ds[2]), DigitsVal(ds[3]);
    && w == Text(ds, 0)
    && h <= 1193 && m <= 59 && s <= 59 && ms <= 999
    && t == h * 60 * 60 * 1000 + m * 60 * 1000 + s * 1000 + ms
    && 1 <= t <= UINT_MAX
  }

  /** Every run of digits in `w` has a value below 2^64. */
  ghost predicate RunsFit(w: string) {
    forall i, j | 0 <= i <= j <= |w| && AllDigits(w[i..j]) :: DigitsVal(w[i..j]) < WRAP
  }

  predicate GroupsFit(ds: Fields) {
    forall k | 0 <= k < 4 :: DigitsVal(ds[k]) < WRAP
  }

  lemma Unwrapped(d: string)
    requires AllDigits(d) && DigitsVal(d) < WRAP
    ensures WrapVal(d) == DigitsVal(d)
  {
    WrapValIs(d);
  }

  lemma SumIs(ds: Fields)
    ensures Sum(ds, 0) == WrapVal(ds[0]) * 3600000 + WrapVal(ds[1]) * 60000 + WrapVal(ds[2]) * 1000 + WrapVal(ds[3])
    ensures InLimits(ds, 0) <==>
      WrapVal(ds[0]) <= INT_MAX && WrapVal(ds[1]) <= 59 && WrapVal(ds[2]) <= 59 && WrapVal(ds[3]) <= 999
  {
    hide WrapVal;
    assert Sum(ds, 2) == Times(WrapVal(ds[2]), 2) + Sum(ds, 3);
    assert InLimits(ds, 2) <==> WrapVal(ds[2]) <= 59 && InLimits(ds, 3);
  }

  /** On groups that fit 64 bits, the scanner's limits and the script's accept the same with the same value. */
  lemma SameChecks(w: string, t: nat, ds: Fields)
    requires GroupsFit(ds)
    ensures DenotesBy(w, t, ds) <==> CheckAsyncKeyBy(w, t, ds)
  {
    hide WrapVal, DigitsVal, Text;
    forall k | 0 <= k < 4
      ensures WrapVal(ds[k]) == DigitsVal(ds[k])
    {
      Unwrapped(ds[k]);
    }
    SumIs(ds);
  }

  lemma {:induction false} GroupInText(ds: Fields, from: nat, k: nat) returns (i: nat)
    requires from <= k < 4
    ensures i + |ds[k]| <= |Text(ds, from)| && Text(ds, from)[i..i + |ds[k]|] == ds[k]
    decreases k - from
  {
    if from == k {
      i := 0;
    } else {
      var j := GroupInText(ds, from + 1, k);
      i := |Text(ds, from)| - |Text(ds, from + 1)| + j;
    }
  }

  lemma TextRunsFit(w: string, ds: Fields)
    requires RunsFit(w) && w == Text(ds, 0)
    ensures GroupsFit(ds)
  {
    forall k | 0 <= k < 4
      ensures DigitsVal(ds[k]) < WRAP
    {
      var i := GroupInText(ds, 0, k);
    }
  }

  /** The table-driven scanner and the regular expression accept the same texts with the same
      milliseconds, for every text whose runs of digits fit 64 bits. */
  lemma TimeLanguagesAgree(w: string, t: nat)
    requires RunsFit(w)
    ensures Denotes(w, t) <==> CheckAsyncKey(w, t)
  {
    if Denotes(w, t) {
      var ds :| DenotesBy(w, t, ds);
      TextRunsFit(w, ds);
      SameChecks(w, t, ds);
    }
    if CheckAsyncKey(w, t) {
      var ds :| CheckAsyncKeyBy(w, t, ds);
      SameChecks(w, t, ds);
    }
  }

  /** A text determines its groups. */
  lemma {:induction false} GroupsUnique(ds: Fields, ds': Fields, k: nat)
    requires k <= 4 && Text(ds, k) == Text(ds', k)
    ensures forall j | k <= j < 4 :: ds[j] == ds'[j]
    decreases 4 - k
  {
    hide Text, DigitEnd, MatchUnit, First, AllDigits, IsDigit;
    var s := Text(ds, k);
    Skip(ds, k);
    Skip(ds', k);
    if s != "" {
      assert s[0..|s|] == s;
      var u, e, n := Head(s, 0, ds, k, |s|);
      var u', e', n' := Head(s, 0, ds', k, |s|);
      GroupsUnique(ds, ds', u + 1);
    }
  }

  /** Some run of digits exceeds 64 bits, yet what is left of it after wrapping is in range. */
  ghost predicate WrapsIntoRange(w: string) {
    exists ds: Fields :: w == Text(ds, 0) && !GroupsFit(ds) && InLimits(ds, 0) && 1 <= Sum(ds, 0) <= UINT_MAX
  }

  /** A text that wraps into range is a time for the scanner and none for the script. */
  lemma WrappedRefused(w: string)
    requires WrapsIntoRange(w)
    ensures exists t: nat :: Denotes(w, t)
    ensures forall t: nat :: !CheckAsyncKey(w, t)
  {
    hide Text, Sum, InLimits, DigitsVal;
    var ds: Fields :| w == Text(ds, 0) && !GroupsFit(ds) && InLimits(ds, 0) && 1 <= Sum(ds, 0) <= UINT_MAX;
    assert DenotesBy(w, Sum(ds, 0), ds);
    assert Denotes(w, Sum(ds, 0));
    forall t: nat | CheckAsyncKey(w, t)
      ensures false
    {
      var ds' :| CheckAsyncKeyBy(w, t, ds');
      GroupsUnique(ds, ds', 0);
    }
  }

  lemma UnwrappedAgree(w: string, t: nat)
    requires !WrapsIntoRange(w)
    ensures Denotes(w, t) <==> CheckAsyncKey(w, t)
  {
    hide Text, Sum, InLimits, DigitsVal;
    if Denotes(w, t) {
      var ds :| DenotesBy(w, t, ds);
      SameChecks(w, t, ds);
    }
    if CheckAsyncKey(w, t) {
      var ds :| CheckAsyncKeyBy(w, t, ds);
      SameChecks(w, t, ds);
    }
  }

  /** The exact condition: the two checks agree on `w` unless a run of digits wraps into range, and
      then it is the scanner alone that takes it. */
  lemma AgreeUnlessWrapped(w: string)
    ensures (forall t: nat :: Denotes(w, t) <==> CheckAsyncKey(w, t)) <==> !WrapsIntoRange(w)
    ensures (exists t: nat :: Denotes(w, t)) <==> (exists t: nat :: CheckAsyncKey(w, t)) || WrapsIntoRange(w)
    ensures !(WrapsIntoRange(w) && exists t: nat :: CheckAsyncKey(w, t))
  {
    hide Denotes, CheckAsyncKey, WrapsIntoRange;
    if WrapsIntoRange(w) {
      WrappedRefused(w);
    } else {
      forall t: nat
        ensures Denotes(w, t) <==> CheckAsyncKey(w, t)
      {
        UnwrappedAgree(w, t);
      }
    }
  }

  /** The failing family: `h` hours written with any multiple of 2^64 added, which the kernel
      takes for `h` hours and the script refuses. */
  lemma WrappedHours(q: nat, h: nat, w: string)
    requires 1 <= q && 1 <= h <= 1193 && w == Dec(q * WRAP + h) + "h"
    ensures Denotes(w, h * 3600000)
    ensures forall t: nat :: !CheckAsyncKey(w, t)
  {
    hide Text, DigitsVal, WrapVal, Sum, InLimits;
    var d := Dec(q * WRAP + h);
    GroupOnly(d);
    var ds: Fields := [d, "", "", ""];
    DecVal(q * WRAP + h);
    WrapValIs(d);
    WrapsTo(q, h);
    SumIs(ds);
    EmptyValues();
    assert DenotesBy(w, h * 3600000, ds);
    forall t: nat | CheckAsyncKey(w, t)
      ensures false
    {
      var ds' :| CheckAsyncKeyBy(w, t, ds');
      GroupsUnique(ds, ds', 0);
      WrapBound(q, h);
    }
  }

  lemma EmptyValues()
    ensures WrapVal("") == 0
  {
  }

  lemma GroupOnly(d: string)
    requires d != "" && AllDigits(d)
    ensures Text([d, "", "", ""], 0) == d + "h"
  {
    Skip([d, "", "", ""], 1);
  }

  lemma WrapsTo(q: nat, h: nat)
    requires h < WRAP
    ensures (q * WRAP + h) % WRAP == h
  {
  }

  lemma WrapBound(q: nat, h: nat)
    requires 1 <= q
    ensures q * WRAP + h >= WRAP
  {
  }
}
