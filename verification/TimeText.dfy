/** The time notation `1h2m3s4ms` as kernel/hwe_utils.c scans and prints it. */
module TimeText {
  import opened Base
  import opened Decimal

  // The unit table of `hwe_str_to_time`; index 4 is its terminating row.

  function Unit(u: nat): string
    requires u < 4
  {
    if u == 0 then "h" else if u == 1 then "m" else if u == 2 then "s" else "ms"
  }

  function UnitLen(u: nat): nat {
    if u == 3 then 2 else 1
  }

  function Max(u: nat): nat
    requires u < 4
  {
    if u == 0 then INT_MAX else if u == 3 then 999 else 59
  }

  /** `n * mult` milliseconds: the value of `n` units of row `u`. */
  function Times(n: nat, u: nat): nat
    requires u < 4
  {
    if u == 0 then n * 3600000 else if u == 1 then n * 60000 else if u == 2 then n * 1000 else n
  }

  predicate IsAlpha(c: char) {
    'a' <= c <= 'z' || 'A' <= c <= 'Z'
  }

  predicate IsSep(c: char) {
    c == '\0' || c == ',' || c == '='
  }

  /** `strncmp(unit, s + i, unit_len) == 0 && !isalpha(s[i + unit_len])` for row `u`. */
  predicate UnitAt(s: string, i: nat, u: nat)
    requires u < 4
    ensures UnitAt(s, i, u) ==> i + UnitLen(u) <= |s|
  {
    At(s, i) == (if u == 0 then 'h' else if u == 2 then 's' else 'm')
    && (u == 3 ==> At(s, i + 1) == 's')
    && !IsAlpha(At(s, i + UnitLen(u)))
  }

  /** The first row at or after `u` whose unit stands at `i`, or 4. */
  function MatchUnit(s: string, i: nat, u: nat): (r: nat)
    requires u <= 4
    ensures u <= r <= 4
    ensures r < 4 ==> UnitAt(s, i, r)
    decreases 4 - u
  {
    if u == 4 || UnitAt(s, i, u) then u else MatchUnit(s, i, u + 1)
  }

  /** The value (0 on error) and the position `end_ptr` points to. */
  datatype Scan = Scan(time: nat, end: nat)

  /** The rounds of the scanner from position `i` on, with row `u` next and `acc` milliseconds so far. */
  function ScanFrom(s: string, i: nat, u: nat, acc: nat, start: nat): (r: Scan)
    requires i <= |s| && u < 4
    decreases |s| - i
  {
    var e := DigitEnd(s, i);
    if e == i then Scan(0, i)
    else
      var n, v := Strtoull(s, i), MatchUnit(s, e, u);
      if v == 4 || n > Max(v) then Scan(0, i)
      else
        var sum, next := acc + Times(n, v), e + UnitLen(v);
        if sum > UINT_MAX then Scan(0, start)
        else if v + 1 < 4 && !IsSep(At(s, next)) then ScanFrom(s, next, v + 1, sum, start)
        else Scan(if IsSep(At(s, next)) then sum else 0, next)
  }

  /** One round of the scanner, as a case distinction on the group it reads. */
  lemma Round(s: string, i: nat, k: nat, acc: nat, start: nat, e: nat, v: nat, u: nat, n: nat)
    requires k < 4 && i <= |s| && e == DigitEnd(s, i) && v == Strtoull(s, i) && u == MatchUnit(s, e, k) && n == e + UnitLen(u)
    ensures e == i || u == 4 ==> ScanFrom(s, i, k, acc, start) == Scan(0, i)
    ensures i < e && u < 4 ==> n <= |s|
    ensures i < e && u < 4 && v > Max(u) ==> ScanFrom(s, i, k, acc, start) == Scan(0, i)
    ensures i < e && u < 4 && v <= Max(u) && acc + Times(v, u) > UINT_MAX ==>
      ScanFrom(s, i, k, acc, start) == Scan(0, start)
    ensures i < e && u < 4 && v <= Max(u) && acc + Times(v, u) <= UINT_MAX && u + 1 < 4 && !IsSep(At(s, n)) ==>
      ScanFrom(s, i, k, acc, start) == ScanFrom(s, n, u + 1, acc + Times(v, u), start)
    ensures i < e && u < 4 && v <= Max(u) && acc + Times(v, u) <= UINT_MAX && (u + 1 == 4 || IsSep(At(s, n))) ==>
      ScanFrom(s, i, k, acc, start) == Scan(if IsSep(At(s, n)) then acc + Times(v, u) else 0, n)
  {
    hide DigitEnd, MatchUnit, UnitAt, Times, Strtoull, Max, IsSep, At;
  }

  /** The inner loop over the unit table: it only moves forward. */
  method FindUnit(str: string, ep: nat, from: nat) returns (p: nat)
    requires from <= 4
    ensures p == MatchUnit(str, ep, from)
  {
    p := from;
    while p < 4 && !UnitAt(str, ep, p)
      invariant p <= 4
      invariant MatchUnit(str, ep, from) == MatchUnit(str, ep, p)
    {
      p := p + 1;
    }
  }

  /** `hwe_str_to_time(str + at, &end)`. Product and sum are those of 64 bits, and yet the result is
      that of the scan on unbounded numbers. */
  method HweStrToTime(str: string, at: nat) returns (ret: nat, end: nat)
    requires at <= |str|
    ensures Scan(ret, end) == ScanFrom(str, at, 0, 0, at)
  {
    hide ScanFrom, DigitEnd, MatchUnit, UnitAt, Strtoull, IsSep;
    var p := 0;
    var s := at;
    var ep := at;
    ret := 0;
    ghost var result := ScanFrom(str, at, 0, 0, at);
    while true
      invariant at <= s <= |str| && p < 4 && ret <= UINT_MAX
      invariant result == ScanFrom(str, s, p, ret, at)
      decreases |str| - s
    {
      var n := Strtoull(str, s);
      ep := DigitEnd(str, s);
      ghost var u := MatchUnit(str, ep, p);
      Round(str, s, p, ret, at, ep, n, u, ep + UnitLen(u));
      if s == ep {
        ret := 0;
        break;
      }
      p := FindUnit(str, ep, p);
      if p == 4 || n > Max(p) {
        ret := 0;
        ep := s;
        break;
      }
      ret := (ret + Times(n, p) % WRAP) % WRAP;
      if ret > UINT_MAX {
        ret := 0;
        ep := at;
        break;
      }
      ep := ep + UnitLen(p);
      s := ep;
      p := p + 1;
      if !(p < 4 && !IsSep(At(str, s))) {
        break;
      }
    }
    if !IsSep(At(str, s)) {
      ret := 0;
    }
    return ret, ep;
  }
}
