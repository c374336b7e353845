/** The printer of the time notation, `hwe_time_to_str`, and its round trip through the scanner. */
module TimePrint {
  import opened Base
  import opened Decimal
  import opened TimeText
  import opened TimeGrammar

  /** Hours, minutes, seconds and milliseconds of `t`. */
  function Part(t: nat, k: nat): nat
    requires k < 4
  {
    var h := t / 1000 / 3600;
    var rest := t / 1000 - 3600 * h;
    if k == 0 then h else if k == 1 then rest / 60 else if k == 2 then rest - rest / 60 * 60 else t % 1000
  }

  /** A field is printed when it lies between the first and the last non-zero field. */
  predicate Printed(t: nat, k: nat)
    requires k < 4
  {
    (exists i | 0 <= i <= k :: Part(t, i) != 0) && (exists j | k <= j < 4 :: Part(t, j) != 0)
  }

  function Group(t: nat, k: nat): (d: string)
    requires k < 4
    ensures AllDigits(d)
  {
    if Printed(t, k) then Dec(Part(t, k)) else ""
  }

  function Canon(t: nat): Fields {
    [Group(t, 0), Group(t, 1), Group(t, 2), Group(t, 3)]
  }

  /** The text of `t`. */
  function Print(t: nat): string {
    Text(Canon(t), 0)
  }

  /** The fields of a time add up to it, and each but the hours is below its unit. */
  lemma Parts(t: nat)
    ensures t == Part(t, 0) * 3600000 + Part(t, 1) * 60000 + Part(t, 2) * 1000 + Part(t, 3)
    ensures Part(t, 1) <= 59 && Part(t, 2) <= 59 && Part(t, 3) <= 999
    ensures t <= UINT_MAX ==> Part(t, 0) <= 1193
  {
    var sec := t / 1000;
    var rest := sec - 3600 * (sec / 3600);
    assert rest < 3600;
  }

  /** A printed or omitted field reads back as itself. */
  lemma GroupVal(t: nat, k: nat)
    requires k < 4 && Part(t, k) < WRAP
    ensures WrapVal(Group(t, k)) == Part(t, k)
  {
    hide Part;
    if Printed(t, k) {
      DecVal(Part(t, k));
      WrapValIs(Dec(Part(t, k)));
    } else {
      assert Part(t, k) == 0;
    }
  }

  lemma CanonSum(t: nat)
    requires t <= UINT_MAX
    ensures Sum(Canon(t), 0) == t && InLimits(Canon(t), 0)
  {
    hide Part, Printed, WrapVal, Sum, InLimits, Group;
    Parts(t);
    forall k | 0 <= k < 4
      ensures WrapVal(Group(t, k)) == Part(t, k)
    {
      GroupVal(t, k);
    }
    SumIs(Canon(t));
  }

  /** Time text round trip: what is printed for `t` is a time text worth `t`. */
  lemma PrintDenotes(t: nat)
    requires 1 <= t <= UINT_MAX
    ensures Denotes(Print(t), t)
  {
    hide Canon, Text, Sum, InLimits;
    CanonSum(t);
    assert DenotesBy(Print(t), t, Canon(t));
  }

  lemma CanonFits(t: nat)
    requires t <= UINT_MAX
    ensures GroupsFit(Canon(t))
  {
    hide Part, Group, DigitsVal;
    Parts(t);
    forall k | 0 <= k < 4
      ensures DigitsVal(Group(t, k)) < WRAP
    {
      GroupFits(t, k);
    }
  }

  lemma GroupFits(t: nat, k: nat)
    requires k < 4 && Part(t, k) < WRAP
    ensures DigitsVal(Group(t, k)) < WRAP
  {
    hide Part, Printed, Dec;
    DecVal(Part(t, k));
  }

  /** What is printed for `t` passes the check of the scripts, which find `t` milliseconds in it. */
  lemma PrintChecks(t: nat)
    requires 1 <= t <= UINT_MAX
    ensures CheckAsyncKey(Print(t), t)
  {
    hide Canon, Text, Sum, InLimits, GroupsFit, CheckAsyncKeyBy;
    CanonSum(t);
    CanonFits(t);
    assert DenotesBy(Print(t), t, Canon(t));
    SameChecks(Print(t), t, Canon(t));
  }

  /** The scanner undoes the printer: from the printed text, up to any separator, it returns the time
      and stops at the separator. */
  lemma ScanUndoesPrint(t: nat, rest: string)
    requires 1 <= t <= UINT_MAX && IsSep(At(rest, 0))
    ensures ScanFrom(Print(t) + rest, 0, 0, 0, 0) == Scan(t, |Print(t)|)
  {
    hide Part, Printed, Group, Text, ScanFrom, IsSep;
    Parts(t);
    CanonSum(t);
    NotEmpty(Canon(t));
    var s := Print(t) + rest;
    assert s[0..|Print(t)|] == Print(t);
    assert At(s, |Print(t)|) == At(rest, 0);
    ScanText(s, 0, Canon(t), 0, |Print(t)|, 0, 0);
  }

  lemma GroupLength(t: nat, k: nat)
    requires k < 4 && t <= UINT_MAX
    ensures |Group(t, k)| <= if k == 0 then 4 else if k == 3 then 3 else 2
  {
    hide Printed;
    Parts(t);
  }

  /** No time text printed for a 32-bit time is longer than sixteen characters. */
  lemma PrintLength(t: nat)
    requires t <= UINT_MAX
    ensures |Print(t)| <= 16
  {
    hide Part, Printed, Group, DigitsVal;
    GroupLength(t, 0);
    GroupLength(t, 1);
    GroupLength(t, 2);
    GroupLength(t, 3);
    TextLength(Canon(t));
  }

  lemma TextLength(ds: Fields)
    ensures |Text(ds, 0)| <= |ds[0]| + |ds[1]| + |ds[2]| + |ds[3]| + 5
  {
    assert |Text(ds, 2)| <= |ds[2]| + |ds[3]| + 3;
  }

  /** `scnprintf(buf + at, size, text)`: what fits, with a terminator, and the count without it. */
  method Scnprintf(buf: array<char>, at: nat, size: nat, text: string) returns (n: nat)
    requires at + size <= buf.Length
    modifies buf
    ensures n == if size == 0 then 0 else Min(|text|, size - 1)
    ensures buf[..at + n] == old(buf[..at]) + text[..n]
  {
    if size == 0 {
      return 0;
    }
    n := Min(|text|, size - 1);
    forall i | 0 <= i < n {
      buf[at + i] := text[i];
    }
    buf[at + n] := '\0';
  }

  /** The text of one field: its number and unit, or nothing. */
  function Shown(printed: bool, v: nat, k: nat): string
    requires k < 4
  {
    if printed then Dec(v) + Unit(k) else ""
  }

  lemma SameParts(t: nat, h: nat, m: nat, s: nat)
    requires h == t / 1000 / 3600 && m == (t / 1000 - 3600 * h) / 60 && s == t / 1000 - 3600 * h - m * 60
    ensures h == Part(t, 0) && m == Part(t, 1) && s == Part(t, 2)
  {
  }

  /** The printer's conditions say that a field lies between the first and last non-zero ones. */
  lemma ConditionsArePrinted(t: nat, h: nat, m: nat, s: nat, ms: nat)
    requires h == Part(t, 0) && m == Part(t, 1) && s == Part(t, 2) && ms == Part(t, 3)
    ensures Printed(t, 0) <==> h != 0
    ensures Printed(t, 1) <==> m != 0 || (h != 0 && (s != 0 || ms != 0))
    ensures Printed(t, 2) <==> s != 0 || ((h != 0 || m != 0) && ms != 0)
    ensures Printed(t, 3) <==> ms != 0
  {
    hide Part;
  }

  lemma TextStep(ds: Fields, t: nat, k: nat)
    requires k < 4 && ds[k] == Group(t, k)
    ensures Text(ds, k) == Shown(Printed(t, k), Part(t, k), k) + Text(ds, k + 1)
  {
    hide Part, Dec, Printed, DigitsVal, Unit;
  }

  lemma Reassociate(a: string, b: string, c: string, d: string)
    ensures a + (b + (c + (d + ""))) == a + b + c + d
  {
    assert a + (b + (c + d)) == (a + b) + (c + d);
  }

  /** The printed text is that of its four fields, one after the other. */
  lemma PrintIs(t: nat)
    ensures Print(t) == Shown(Printed(t, 0), Part(t, 0), 0) + Shown(Printed(t, 1), Part(t, 1), 1)
      + Shown(Printed(t, 2), Part(t, 2), 2) + Shown(Printed(t, 3), Part(t, 3), 3)
  {
    hide Part, Printed, Group, Shown, Text;
    var ds := Canon(t);
    TextStep(ds, t, 0);
    TextStep(ds, t, 1);
    TextStep(ds, t, 2);
    TextStep(ds, t, 3);
    TextEnd(ds);
    Reassociate(Shown(Printed(t, 0), Part(t, 0), 0), Shown(Printed(t, 1), Part(t, 1), 1),
      Shown(Printed(t, 2), Part(t, 2), 2), Shown(Printed(t, 3), Part(t, 3), 3));
  }

  lemma TextEnd(ds: Fields)
    ensures Text(ds, 4) == ""
  {
  }

  /** `hwe_time_to_str(buf + at, size, t)` on a buffer with room for the longest time. */
  method HweTimeToStr(buf: array<char>, at: nat, t: nat) returns (end: nat)
    requires t <= UINT_MAX && at + 17 <= buf.Length
    modifies buf
    ensures end == at + |Print(t)|
    ensures buf[..end] == old(buf[..at]) + Print(t)
  {
    hide Part, Dec, DigitsVal, Printed, Text, Group;
    var ms := t % 1000;
    var sec := t / 1000;
    var h := sec / 3600;
    var m := (sec - 3600 * h) / 60;
    var s := sec - 3600 * h - m * 60;
    PartsAre(t, h, m, s, ms);
    hide Shown;
    var showM := m != 0 || (h != 0 && (s != 0 || ms != 0));
    var showS := s != 0 || ((h != 0 || m != 0) && ms != 0);
    ghost var a, b, c, d := Shown(h != 0, h, 0), Shown(showM, m, 1), Shown(showS, s, 2), Shown(ms != 0, ms, 3);
    ShownLength(h != 0, h, 0);
    ShownLength(showM, m, 1);
    ShownLength(showS, s, 2);
    ShownLength(ms != 0, ms, 3);
    end := AppendIf(h != 0, buf, at, h, 0);
    end := AppendIf(showM, buf, end, m, 1);
    end := AppendIf(showS, buf, end, s, 2);
    end := AppendIf(ms != 0, buf, end, ms, 3);
    PrintIs(t);
    AppendedAll(old(buf[..at]), a, b, c, d);
  }

  lemma AppendedAll(start: string, a: string, b: string, c: string, d: string)
    ensures start + a + b + c + d == start + (a + b + c + d)
  {
    assert start + a + b + c == start + (a + b + c);
  }

  lemma PartsAre(t: nat, h: nat, m: nat, s: nat, ms: nat)
    requires t <= UINT_MAX && ms == t % 1000
    requires h == t / 1000 / 3600 && m == (t / 1000 - 3600 * h) / 60 && s == t / 1000 - 3600 * h - m * 60
    ensures h == Part(t, 0) <= 1193 && m == Part(t, 1) <= 59 && s == Part(t, 2) <= 59 && ms == Part(t, 3) <= 999
    ensures Printed(t, 0) <==> h != 0
    ensures Printed(t, 1) <==> m != 0 || (h != 0 && (s != 0 || ms != 0))
    ensures Printed(t, 2) <==> s != 0 || ((h != 0 || m != 0) && ms != 0)
    ensures Printed(t, 3) <==> ms != 0
  {
    hide Printed;
    SameParts(t, h, m, s);
    Parts(t);
    ConditionsArePrinted(t, h, m, s, ms);
  }

  /** `if (printed) n += scnprintf(str + n, size - n, "%u<unit>", v)`. */
  method AppendIf(printed: bool, buf: array<char>, at: nat, v: nat, k: nat) returns (end: nat)
    requires k < 4 && at + |Shown(printed, v, k)| < buf.Length
    modifies buf
    ensures end == at + |Shown(printed, v, k)|
    ensures buf[..end] == old(buf[..at]) + Shown(printed, v, k)
  {
    hide Dec;
    end := at;
    if printed {
      var text := Dec(v) + Unit(k);
      var w := Scnprintf(buf, at, buf.Length - at, text);
      assert text[..w] == text;
      end := at + w;
    }
  }

  lemma ShownLength(printed: bool, v: nat, k: nat)
    requires k < 4 && v <= if k == 0 then 1193 else if k == 3 then 999 else 59
    ensures |Shown(printed, v, k)| <= if k == 1 || k == 2 then 3 else 5
  {
    hide Dec;
  }
}
