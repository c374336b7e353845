/** Loading a configuration and reading it back: `write_config` and `read_config` of
    tests/config_sysfs.py against the registries of the module. */
module ConfigReplay {
  import opened Base
  import opened Registry
  import opened PairCodec
  import opened PairRegistry
  import opened DeviceRegistry

  datatype Kind = Tty | I2c | Net | Spi

  /** The pairs of a device by number, the devices of an interface by number. */
  type DevCfg = map<nat, string>
  type IfaceCfg = map<nat, DevCfg>

  // ---- Numeric order of `traverse_config` ----

  predicate IsLeast(s: set<nat>, x: nat) {
    x in s && forall y | y in s :: x <= y
  }

  lemma {:induction false} MinExists(s: set<nat>)
    requires s != {}
    ensures exists x :: IsLeast(s, x)
  {
    var z :| z in s;
    var t := s - {z};
    if t == {} {
      assert s == {z};
      assert IsLeast(s, z);
    } else {
      MinExists(t);
      var x :| IsLeast(t, x);
      LeastOfTwo(s, z, x);
    }
  }

  lemma LeastOfTwo(s: set<nat>, z: nat, x: nat)
    requires z in s && IsLeast(s - {z}, x)
    ensures IsLeast(s, if x < z then x else z)
  {
    assert forall y | y in s :: y == z || y in s - {z};
  }

  function Least(s: set<nat>): (x: nat)
    requires s != {}
    ensures IsLeast(s, x)
  {
    MinExists(s);
    var x :| x in s && IsLeast(s, x);
    x
  }

  /** `sorted(keys)`. */
  function SortedKeys(s: set<nat>): (ks: seq<nat>)
    ensures |ks| == |s|
    ensures forall x :: x in s <==> x in ks
    decreases |s|
  {
    if s == {} then [] else [Least(s)] + SortedKeys(s - {Least(s)})
  }

  /** `s` holds exactly the numbers from `lo` up to, and without, `hi`. */
  ghost predicate IsRange(s: set<nat>, lo: nat, hi: nat) {
    forall i: nat :: i in s <==> lo <= i < hi
  }

  function Count(lo: nat, hi: nat): seq<nat>
    requires lo <= hi
  {
    seq(hi - lo, i requires 0 <= i < hi - lo => lo + i)
  }

  lemma FirstKey(s: set<nat>)
    requires s != {}
    ensures var ks := SortedKeys(s);
      ks != [] && ks[0] in s && (forall y | y in s :: ks[0] <= y) && ks == [ks[0]] + SortedKeys(s - {ks[0]})
  {
  }

  /** The numbers come in ascending order. */
  lemma {:induction false} SortedAscending(s: set<nat>)
    ensures forall i, j | 0 <= i < j < |SortedKeys(s)| :: SortedKeys(s)[i] < SortedKeys(s)[j]
    decreases |s|
  {
    hide SortedKeys;
    if s != {} {
      FirstKey(s);
      var ks := SortedKeys(s);
      var rest := SortedKeys(s - {ks[0]});
      SortedAscending(s - {ks[0]});
      forall i, j | 0 <= i < j < |ks|
        ensures ks[i] < ks[j]
      {
        assert ks[j] == rest[j - 1] && rest[j - 1] in s - {ks[0]};
        if i > 0 {
          assert ks[i] == rest[i - 1];
        }
      }
    }
  }

  /** The numbers of a gap-free set come in the order 0, 1, 2, ... */
  lemma {:induction false} SortedRange(s: set<nat>, lo: nat, hi: nat)
    requires lo <= hi && IsRange(s, lo, hi)
    ensures SortedKeys(s) == Count(lo, hi)
    decreases hi - lo
  {
    hide SortedKeys;
    if lo < hi {
      assert lo in s;
      FirstKey(s);
      SortedRange(s - {lo}, lo + 1, hi);
      assert Count(lo, hi) == [lo] + Count(lo + 1, hi);
    } else {
      assert s == {};
    }
  }

  lemma {:induction false} RangeSize(s: set<nat>, hi: nat)
    requires IsRange(s, 0, hi)
    ensures |s| == hi
  {
    if hi > 0 {
      RangeSize(s - {hi - 1}, hi - 1);
    } else {
      assert s == {};
    }
  }

  /** A set of numbers without gaps starts at 0. */
  ghost predicate NoGaps(s: set<nat>) {
    IsRange(s, 0, |s|)
  }

  // ---- Writing the pairs of one device ----

  /** Writing `text` to the file `add` of a device: an empty text makes no write, an error raises. */
  function WriteText(r: Pairs, text: string): Result<Pairs, int> {
    if text == "" then Ok(r)
    else
      var (r', ret) := AddStep(r, text, true, 0);
      if ret < 0 then Err(ret) else Ok(r')
  }

  function WriteTexts(r: Pairs, texts: seq<string>): Result<Pairs, int>
    decreases |texts|
  {
    if texts == [] then Ok(r)
    else match WriteText(r, texts[0])
      case Err(e) => Err(e)
      case Ok(r') => WriteTexts(r', texts[1..])
  }

  /** The registry of a device that got the pairs `ps` one after the other. */
  function PairsOf(ps: seq<Pair>): Pairs {
    Reg(seq(MAX_PAIRS, i => i < |ps|), seq(|ps|, i requires 0 <= i < |ps| => Rec(i, ps[i])))
  }

  /** The pairs the accepted ones of `texts` denote. */
  function Parsed(texts: seq<string>): seq<Pair> {
    if texts == [] then []
    else match StrToPair(texts[0])
      case Err(_) => Parsed(texts[1..])
      case Ok(p) => [p] + Parsed(texts[1..])
  }

  predicate Clash(ps: seq<Pair>, p: Pair) {
    exists k | 0 <= k < |ps| :: !ps[k].asyncRx && ps[k].req == p.req
  }

  /** Every text can be written after the pairs `ps`. */
  predicate Fits(ps: seq<Pair>, texts: seq<string>)
    decreases |texts|
  {
    texts == []
    || (texts[0] == "" && Fits(ps, texts[1..]))
    || (match StrToPair(texts[0])
        case Err(_) => false
        case Ok(p) => |ps| < MAX_PAIRS && !Clash(ps, p) && Fits(ps + [p], texts[1..]))
  }

  lemma {:induction false} FirstZeroOf(bits: seq<bool>, n: nat)
    requires n <= |bits| && forall i | 0 <= i < |bits| :: bits[i] <==> i < n
    ensures FirstZero(bits) == n
  {
    if n > 0 {
      FirstZeroOf(bits[1..], n - 1);
    }
  }

  lemma AddTailOf(ps: seq<Pair>, p: Pair)
    requires |ps| < MAX_PAIRS
    ensures FirstZero(PairsOf(ps).bits) == |ps|
    ensures AddTail(PairsOf(ps), p) == PairsOf(ps + [p])
  {
    hide FirstZero;
    FirstZeroOf(PairsOf(ps).bits, |ps|);
    assert AddTail(PairsOf(ps), p).bits == PairsOf(ps + [p]).bits;
    assert AddTail(PairsOf(ps), p).recs == PairsOf(ps + [p]).recs;
  }

  lemma FindClash(ps: seq<Pair>, p: Pair)
    ensures FindPair(PairsOf(ps).recs, p.req).Some? <==> Clash(ps, p)
  {
    hide FindPair;
    var recs := PairsOf(ps).recs;
    var f := FindPair(recs, p.req);
    if f.Some? {
      assert recs[f.value].item == ps[f.value];
    } else {
      assert forall k | 0 <= k < |ps| :: recs[k].item == ps[k];
    }
  }

  lemma WriteTextOf(ps: seq<Pair>, text: string)
    requires |ps| <= MAX_PAIRS && text != ""
    ensures WriteText(PairsOf(ps), text).Ok? <==>
      StrToPair(text).Ok? && |ps| < MAX_PAIRS && !Clash(ps, StrToPair(text).value)
    ensures WriteText(PairsOf(ps), text).Ok? ==>
      WriteText(PairsOf(ps), text).value == PairsOf(ps + [StrToPair(text).value])
  {
    hide StrToPair, FirstZero, FindPair, PairsOf, Clash;
    if StrToPair(text).Ok? {
      var p := StrToPair(text).value;
      FindClash(ps, p);
      if |ps| < MAX_PAIRS {
        AddTailOf(ps, p);
        BitsOf(ps);
      } else {
        BitsOf(ps);
      }
    }
  }

  lemma BitsOf(ps: seq<Pair>)
    requires |ps| <= MAX_PAIRS
    ensures |PairsOf(ps).bits| == MAX_PAIRS && FirstZero(PairsOf(ps).bits) == |ps|
  {
    FirstZeroOf(PairsOf(ps).bits, |ps|);
  }

  /** Writing texts in order succeeds exactly when they fit, and then pair `i` gets index `i`. */
  lemma {:induction false} WriteTextsOf(ps: seq<Pair>, texts: seq<string>)
    requires |ps| <= MAX_PAIRS
    ensures WriteTexts(PairsOf(ps), texts).Ok? <==> Fits(ps, texts)
    ensures Fits(ps, texts) ==> WriteTexts(PairsOf(ps), texts).value == PairsOf(ps + Parsed(texts))
    ensures Fits(ps, texts) ==> |ps + Parsed(texts)| <= MAX_PAIRS
    decreases |texts|
  {
    hide StrToPair, PairsOf, Clash, WriteText;
    if texts == [] {
      assert ps + Parsed(texts) == ps;
    } else if texts[0] == "" {
      EmptyText();
      WriteTextsOf(ps, texts[1..]);
    } else {
      WriteTextOf(ps, texts[0]);
      if StrToPair(texts[0]).Ok? && |ps| < MAX_PAIRS {
        var p := StrToPair(texts[0]).value;
        WriteTextsOf(ps + [p], texts[1..]);
        assert ps + [p] + Parsed(texts[1..]) == ps + Parsed(texts);
      }
    }
  }

  lemma EmptyText()
    ensures StrToPair("").Err?
    ensures forall r :: WriteText(r, "") == Ok(r)
  {
  }

  /** No two synchronous pairs have the same request. */
  predicate Distinct(ps: seq<Pair>) {
    forall i, j | 0 <= i < j < |ps| && !ps[i].asyncRx && !ps[j].asyncRx :: ps[i].req != ps[j].req
  }

  ghost predicate AllFormed(ps: seq<Pair>) {
    forall k | 0 <= k < |ps| :: WellFormed(ps[k])
  }

  lemma DistinctSnoc(ps: seq<Pair>, p: Pair)
    requires AllFormed(ps) && WellFormed(p) && Distinct(ps)
    ensures Distinct(ps + [p]) <==> !Clash(ps, p)
  {
    var all := ps + [p];
    if Clash(ps, p) {
      var k :| 0 <= k < |ps| && !ps[k].asyncRx && ps[k].req == p.req;
      assert all[k] == ps[k] && all[|ps|] == p;
    }
  }

  predicate AllAccepted(texts: seq<string>) {
    forall k | 0 <= k < |texts| :: StrToPair(texts[k]).Ok?
  }

  /** Fitting, declared: all texts valid, few enough, and their synchronous requests distinct. */
  lemma {:induction false} FitsIff(ps: seq<Pair>, texts: seq<string>)
    requires |ps| <= MAX_PAIRS && AllFormed(ps) && Distinct(ps)
    requires "" !in texts
    ensures Fits(ps, texts) <==> AllAccepted(texts) && |ps| + |texts| <= MAX_PAIRS && Distinct(ps + Parsed(texts))
    decreases |texts|
  {
    hide StrToPair, WellFormed, Clash, Distinct;
    if texts == [] {
      assert ps + Parsed(texts) == ps;
    } else if StrToPair(texts[0]).Ok? {
      var p, rest := StrToPair(texts[0]).value, texts[1..];
      AcceptedWellFormed(texts[0], p);
      DistinctSnoc(ps, p);
      assert ps + Parsed(texts) == ps + [p] + Parsed(rest);
      assert AllAccepted(texts) <==> AllAccepted(rest) by {
        assert texts == [texts[0]] + rest;
      }
      if Distinct(ps + [p]) {
        if |ps| < MAX_PAIRS {
          FitsIff(ps + [p], rest);
        }
      } else {
        DistinctPrefix(ps + [p], Parsed(rest));
      }
    }
  }

  lemma DistinctPrefix(ps: seq<Pair>, qs: seq<Pair>)
    ensures Distinct(ps + qs) ==> Distinct(ps)
  {
    assert forall i | 0 <= i < |ps| :: (ps + qs)[i] == ps[i];
  }

  // ---- Reading the pairs of one device back ----

  /** `read_pairs`: the text of every pair file. */
  ghost function ReadPairs(r: Pairs): DevCfg {
    map i | i in ToMap(r.recs) :: PairToStr(ToMap(r.recs)[i])
  }

  /** The files read are those `pair_show` serves, with the text it shows. */
  lemma ReadsFiles(r: Pairs, i: nat)
    requires Inv(r)
    ensures ShowPair(r, i) == if i in ReadPairs(r) then Some(ReadPairs(r)[i]) else None
  {
    hide Inv, ShowPair, PairToStr, ToMap;
    ShowIsLookup(r, i);
  }

  /** What a pair text is in canonical form. */
  function CanonText(text: string): string {
    match StrToPair(text) case Err(_) => text case Ok(p) => PairToStr(p)
  }

  function CanonDev(d: DevCfg): DevCfg {
    map i | i in d :: CanonText(d[i])
  }

  function Texts(d: DevCfg): seq<string> {
    var ks := SortedKeys(d.Keys);
    seq(|ks|, k requires 0 <= k < |ks| => assert ks[k] in ks; d[ks[k]])
  }

  /** The texts of a device can all be loaded: valid, few enough, requests distinct. */
  ghost predicate LoadableDev(d: DevCfg) {
    |d| <= MAX_PAIRS && AllValid(d) && AllApart(d)
  }

  /** Not two request-response pairs with the same request. */
  predicate SyncApart(a: Result<Pair, string>, b: Result<Pair, string>) {
    a.Ok? && b.Ok? && !a.value.asyncRx && !b.value.asyncRx ==> a.value.req != b.value.req
  }

  lemma ReadPairsOf(ps: seq<Pair>)
    ensures forall i: nat :: i in ReadPairs(PairsOf(ps)) <==> i < |ps|
    ensures forall i | 0 <= i < |ps| :: ReadPairs(PairsOf(ps))[i] == PairToStr(ps[i])
  {
    hide ToMap, PairToStr;
    var recs := PairsOf(ps).recs;
    MapHas(recs);
    forall i: nat
      ensures i in ToMap(recs) <==> i < |ps|
      ensures i < |ps| ==> ToMap(recs)[i] == ps[i]
    {
      if i < |ps| {
        assert recs[i].index == i && recs[i].item == ps[i];
      }
    }
  }

  lemma TextsOf(d: DevCfg)
    requires NoGaps(d.Keys)
    ensures |Texts(d)| == |d| && forall i | 0 <= i < |d| :: i in d && Texts(d)[i] == d[i]
  {
    hide SortedKeys;
    assert |d.Keys| == |d|;
    SortedRange(d.Keys, 0, |d|);
    forall i | 0 <= i < |d|
      ensures i in d && Texts(d)[i] == d[i]
    {
      assert i in d.Keys;
      assert SortedKeys(d.Keys)[i] == Count(0, |d|)[i] == i;
    }
  }

  lemma {:induction false} ParsedOf(texts: seq<string>)
    requires AllAccepted(texts)
    ensures |Parsed(texts)| == |texts|
    ensures forall k | 0 <= k < |texts| :: Parsed(texts)[k] == StrToPair(texts[k]).value
  {
    hide StrToPair;
    if texts != [] {
      assert AllAccepted(texts[1..]);
      ParsedOf(texts[1..]);
    }
  }

  lemma {:induction false} ParsedShort(texts: seq<string>)
    ensures |Parsed(texts)| <= |texts|
    ensures "" in texts ==> |Parsed(texts)| < |texts|
  {
    hide StrToPair;
    if texts != [] {
      ParsedShort(texts[1..]);
      EmptyText();
    }
  }

  ghost predicate AllValid(d: DevCfg) {
    forall i | i in d :: StrToPair(d[i]).Ok?
  }

  ghost predicate AllApart(d: DevCfg) {
    forall i, j | i in d && j in d && i != j :: SyncApart(StrToPair(d[i]), StrToPair(d[j]))
  }

  lemma NumberInRange(d: DevCfg)
    requires NoGaps(d.Keys)
    ensures forall i | i in d :: 0 <= i < |d|
  {
    assert |d.Keys| == |d|;
    assert forall i | i in d :: i in d.Keys;
  }

  lemma AcceptedIsValid(d: DevCfg)
    requires NoGaps(d.Keys)
    ensures AllAccepted(Texts(d)) <==> AllValid(d)
  {
    hide StrToPair, Texts, NoGaps;
    TextsOf(d);
    NumberInRange(d);
  }

  lemma DistinctIsApart(d: DevCfg)
    requires NoGaps(d.Keys) && AllAccepted(Texts(d))
    ensures Distinct(Parsed(Texts(d))) <==> AllApart(d)
  {
    hide StrToPair, Texts, NoGaps, Parsed;
    TextsOf(d);
    NumberInRange(d);
    ParsedOf(Texts(d));
    var ps := Parsed(Texts(d));
    assert forall i | i in d :: StrToPair(d[i]) == Ok(ps[i]);
    if Distinct(ps) {
      forall i, j | i in d && j in d && i != j
        ensures SyncApart(StrToPair(d[i]), StrToPair(d[j]))
      {
        assert ps[i].asyncRx || ps[j].asyncRx || ps[if i < j then i else j].req != ps[if i < j then j else i].req;
      }
    }
    if AllApart(d) {
      forall i, j | 0 <= i < j < |ps| && !ps[i].asyncRx && !ps[j].asyncRx
        ensures ps[i].req != ps[j].req
      {
        assert SyncApart(StrToPair(d[i]), StrToPair(d[j]));
      }
    }
  }

  /** For a device numbered without gaps, its texts fit exactly when the device is loadable. */
  lemma FitsIsLoadable(d: DevCfg)
    requires NoGaps(d.Keys) && "" !in Texts(d)
    ensures Fits([], Texts(d)) <==> LoadableDev(d)
  {
    hide StrToPair, Fits, Parsed, Texts, NoGaps, SyncApart, Distinct;
    TextsOf(d);
    EmptyDistinct();
    FitsIff([], Texts(d));
    assert [] + Parsed(Texts(d)) == Parsed(Texts(d));
    AcceptedIsValid(d);
    if AllValid(d) {
      DistinctIsApart(d);
    }
  }

  lemma EmptyDistinct()
    ensures Distinct([])
  {
  }

  /** A device that was loaded and reads back as its own canonical form. */
  ghost predicate DevRoundTrips(d: DevCfg) {
    var w := WriteTexts(Empty(MAX_PAIRS), Texts(d));
    w.Ok? && ReadPairs(w.value) == CanonDev(d)
  }

  lemma EmptyPairs()
    ensures Empty(MAX_PAIRS) == PairsOf([])
  {
  }

  lemma RoundTripNeeds(d: DevCfg)
    requires DevRoundTrips(d)
    ensures NoGaps(d.Keys) && LoadableDev(d)
  {
    hide StrToPair, Fits, PairsOf, ReadPairs, Texts, WriteTexts, LoadableDev, IsRange, CanonText;
    var texts := Texts(d);
    EmptyPairs();
    WriteTextsOf([], texts);
    var ps := Parsed(texts);
    assert [] + ps == ps;
    ReadPairsOf(ps);
    assert forall i: nat :: i in d.Keys <==> i in CanonDev(d);
    KeysAre(d, |ps|);
    ParsedShort(texts);
    TextsLength(d);
    FitsIsLoadable(d);
  }

  lemma KeysAre<V>(d: map<nat, V>, n: nat)
    requires forall i: nat :: i in d.Keys <==> i < n
    ensures NoGaps(d.Keys) && |d| == n
  {
    RangeSize(d.Keys, n);
    assert |d.Keys| == |d|;
  }

  lemma TextsLength(d: DevCfg)
    ensures |Texts(d)| == |d|
  {
    hide SortedKeys;
    assert |d.Keys| == |d|;
  }

  lemma LoadsTo(d: DevCfg)
    requires NoGaps(d.Keys) && LoadableDev(d)
    ensures WriteTexts(Empty(MAX_PAIRS), Texts(d)) == Ok(PairsOf(Parsed(Texts(d))))
    ensures |Parsed(Texts(d))| == |d|
    ensures forall i | i in d :: i < |d| && StrToPair(d[i]) == Ok(Parsed(Texts(d))[i])
  {
    hide StrToPair, Fits, PairsOf, Texts, WriteTexts, Parsed, NoGaps, AllApart;
    var texts := Texts(d);
    EmptyPairs();
    EmptyText();
    TextsOf(d);
    NumberInRange(d);
    AcceptedIsValid(d);
    assert "" !in texts;
    FitsIsLoadable(d);
    WriteTextsOf([], texts);
    assert [] + Parsed(texts) == Parsed(texts);
    ParsedOf(texts);
  }

  lemma LoadableRoundTrips(d: DevCfg)
    requires NoGaps(d.Keys) && LoadableDev(d)
    ensures DevRoundTrips(d)
  {
    hide StrToPair, PairsOf, ReadPairs, Texts, WriteTexts, PairToStr, Parsed, LoadableDev;
    LoadsTo(d);
    var ps := Parsed(Texts(d));
    ReadPairsOf(ps);
    assert |d.Keys| == |d|;
    assert forall i: nat :: i in ReadPairs(PairsOf(ps)) <==> i in d.Keys;
    assert ReadPairs(PairsOf(ps)) == CanonDev(d);
  }

  /** Loading a device and reading it back gives its canonical form, pair `i` at index `i`, exactly
      when its pairs are numbered without gaps and are loadable. */
  lemma DeviceRoundTrip(d: DevCfg)
    ensures DevRoundTrips(d) <==> NoGaps(d.Keys) && LoadableDev(d)
  {
    hide DevRoundTrips, NoGaps, LoadableDev;
    if DevRoundTrips(d) {
      RoundTripNeeds(d);
    }
    if NoGaps(d.Keys) && LoadableDev(d) {
      LoadableRoundTrips(d);
    }
  }

  // ---- Writing the devices of one interface ----

  /** Writing pairs to the directory of device `j`, which must exist. */
  function WritePairs(r: Devs, j: nat, texts: seq<string>): Result<Devs, int>
    decreases |texts|
  {
    if texts == [] then Ok(r)
    else match Find(r.recs, j)
      case None => Err(-ENOENT)
      case Some(p) =>
        match WriteText(r.recs[p].item, texts[0])
        case Err(e) => Err(e)
        case Ok(item) => WritePairs(Update(r, p, item), j, texts[1..])
  }

  /** Creating a device and writing its pairs, for the devices numbered `ks` in turn. */
  function WriteDevs(r: Devs, cfg: IfaceCfg, ks: seq<nat>): Result<Devs, int>
    requires forall k | k in ks :: k in cfg
    decreases |ks|
  {
    if ks == [] then Ok(r)
    else if FirstZero(r.bits) == |r.bits| then Err(-EIO)
    else match WritePairs(AddFront(r, Empty(MAX_PAIRS)), ks[0], Texts(cfg[ks[0]]))
      case Err(e) => Err(e)
      case Ok(r') => WriteDevs(r', cfg, ks[1..])
  }

  /** `write_config` for one interface, on an interface in state `r`. */
  function WriteIface(r: Devs, cfg: IfaceCfg): Result<Devs, int> {
    WriteDevs(r, cfg, SortedKeys(cfg.Keys))
  }

  /** `read_config` for one interface. */
  ghost function ReadIface(r: Devs): IfaceCfg {
    map j | j in ToMap(r.recs) :: ReadPairs(ToMap(r.recs)[j])
  }

  function CanonIface(cfg: IfaceCfg): IfaceCfg {
    map j | j in cfg :: CanonDev(cfg[j])
  }

  lemma {:induction false} FindAfterUpdate(r: Devs, p: nat, item: Pairs, j: nat)
    requires p < |r.recs|
    ensures Find(Update(r, p, item).recs, j) == Find(r.recs, j)
  {
    hide Find;
    var a, b := Find(r.recs, j), Find(Update(r, p, item).recs, j);
    var recs := Update(r, p, item).recs;
    assert forall q | 0 <= q < |r.recs| :: recs[q].index == r.recs[q].index;
    if a.Some? {
      assert recs[a.value].index == j;
    }
    if b.Some? {
      assert r.recs[b.value].index == j;
    }
  }

  /** Writing pairs to a device changes that device only, as writing them to it alone would. */
  lemma {:induction false} WritePairsIs(r: Devs, j: nat, texts: seq<string>, p: nat)
    requires Find(r.recs, j) == Some(p)
    ensures match WriteTexts(r.recs[p].item, texts)
      case Err(e) => WritePairs(r, j, texts) == Err(e)
      case Ok(item) => WritePairs(r, j, texts) == Ok(Update(r, p, item))
    decreases |texts|
  {
    hide Find, WriteText;
    if texts == [] {
      assert Update(r, p, r.recs[p].item) == r;
    } else {
      match WriteText(r.recs[p].item, texts[0])
      case Err(e) =>
      case Ok(item) =>
        FindAfterUpdate(r, p, item, j);
        WritePairsIs(Update(r, p, item), j, texts[1..], p);
        assert forall last :: Update(Update(r, p, item), p, last) == Update(r, p, last);
    }
  }

  // What writing devices does to the indexes, whatever the numbers in the configuration.

  ghost predicate Numbered(r: Devs, n: nat) {
    Agree(r) && |r.bits| == MAX_DEVICES && n <= MAX_DEVICES && forall i | 0 <= i < MAX_DEVICES :: r.bits[i] <==> i < n
  }

  lemma {:induction false} WritePairsNumbered(r: Devs, j: nat, texts: seq<string>, n: nat)
    requires Numbered(r, n) && WritePairs(r, j, texts).Ok?
    ensures Numbered(WritePairs(r, j, texts).value, n)
    decreases |texts|
  {
    hide Find, WriteText, Agree;
    if texts != [] {
      var p := Find(r.recs, j).value;
      var item := WriteText(r.recs[p].item, texts[0]).value;
      UpdateAgrees(r, p, item);
      WritePairsNumbered(Update(r, p, item), j, texts[1..], n);
    }
  }

  lemma {:induction false} WriteDevsNumbered(r: Devs, cfg: IfaceCfg, ks: seq<nat>, n: nat)
    requires forall k | k in ks :: k in cfg
    requires Numbered(r, n) && WriteDevs(r, cfg, ks).Ok?
    ensures Numbered(WriteDevs(r, cfg, ks).value, n + |ks|)
    decreases |ks|
  {
    hide WritePairs, Agree, FirstZero, Texts;
    if ks != [] {
      FirstZeroOf(r.bits, n);
      var r1 := AddFront(r, Empty(MAX_PAIRS));
      AddFrontAgrees(r, Empty(MAX_PAIRS));
      WritePairsNumbered(r1, ks[0], Texts(cfg[ks[0]]), n + 1);
      WriteDevsNumbered(WritePairs(r1, ks[0], Texts(cfg[ks[0]])).value, cfg, ks[1..], n + 1);
    }
  }

  lemma NumberedKeys(r: Devs, n: nat)
    requires Numbered(r, n)
    ensures forall i: nat :: i in ReadIface(r) <==> i < n
  {
    hide ToMap, ReadPairs, Weight;
    MapHas(r.recs);
    forall i: nat
      ensures i in ToMap(r.recs) <==> i < n
    {
      if i < n {
        assert r.bits[i];
        assert Listed(r.recs, i);
      }
    }
  }

  /** The interface that got devices with the pairs `xs`, each put in front of the ones before. */
  ghost function DevsOf(xs: seq<Pairs>): Devs {
    Reg(seq(MAX_DEVICES, i => i < |xs|),
      seq(|xs|, k requires 0 <= k < |xs| => Rec(|xs| - 1 - k, xs[|xs| - 1 - k])))
  }

  function Wrote(d: DevCfg): Result<Pairs, int> {
    WriteTexts(Empty(MAX_PAIRS), Texts(d))
  }

  lemma AddFrontOf(xs: seq<Pairs>, x: Pairs)
    requires |xs| < MAX_DEVICES
    ensures FirstZero(DevsOf(xs).bits) == |xs|
    ensures AddFront(DevsOf(xs), x) == DevsOf(xs + [x])
  {
    hide FirstZero;
    FirstZeroOf(DevsOf(xs).bits, |xs|);
    var a, b := AddFront(DevsOf(xs), x), DevsOf(xs + [x]);
    assert a.bits == b.bits;
    assert forall k | 0 < k < |a.recs| :: a.recs[k] == DevsOf(xs).recs[k - 1];
    assert a.recs == b.recs;
  }

  lemma FindFirst(recs: seq<Rec<Pairs>>, i: nat)
    requires recs != [] && recs[0].index == i
    ensures Find(recs, i) == Some(0)
  {
  }

  lemma UpdateOf(xs: seq<Pairs>, x: Pairs, y: Pairs)
    ensures Update(DevsOf(xs + [x]), 0, y) == DevsOf(xs + [y])
  {
    assert Update(DevsOf(xs + [x]), 0, y).recs == DevsOf(xs + [y]).recs;
  }

  /** Creating the next device and writing its pairs. */
  lemma NextDevice(xs: seq<Pairs>, d: DevCfg)
    requires |xs| < MAX_DEVICES
    ensures FirstZero(DevsOf(xs).bits) == |xs| < |DevsOf(xs).bits|
    ensures var w := WritePairs(AddFront(DevsOf(xs), Empty(MAX_PAIRS)), |xs|, Texts(d));
      && (w.Ok? <==> Wrote(d).Ok?)
      && (w.Ok? ==> w.value == DevsOf(xs + [Wrote(d).value]))
  {
    hide FirstZero, Texts, WriteTexts, WritePairs, Find, Update;
    AddFrontOf(xs, Empty(MAX_PAIRS));
    var r := DevsOf(xs + [Empty(MAX_PAIRS)]);
    FindFirst(r.recs, |xs|);
    WritePairsIs(r, |xs|, Texts(d), 0);
    if Wrote(d).Ok? {
      UpdateOf(xs, Empty(MAX_PAIRS), Wrote(d).value);
    }
  }

  lemma NoRoom(xs: seq<Pairs>)
    requires |xs| == MAX_DEVICES
    ensures FirstZero(DevsOf(xs).bits) == |DevsOf(xs).bits|
  {
    FirstZeroOf(DevsOf(xs).bits, |xs|);
  }

  /** One round of `WriteDevs` on devices numbered in order. */
  lemma OneMore(xs: seq<Pairs>, cfg: IfaceCfg, ks: seq<nat>)
    requires ks != [] && ks[0] == |xs| <= MAX_DEVICES && forall k | k in ks :: k in cfg
    ensures |xs| == MAX_DEVICES || Wrote(cfg[|xs|]).Err? ==> WriteDevs(DevsOf(xs), cfg, ks).Err?
    ensures |xs| < MAX_DEVICES && Wrote(cfg[|xs|]).Ok? ==>
      WriteDevs(DevsOf(xs), cfg, ks) == WriteDevs(DevsOf(xs + [Wrote(cfg[|xs|]).value]), cfg, ks[1..])
  {
    hide FirstZero, DevsOf, Wrote, WritePairs;
    if |xs| < MAX_DEVICES {
      NextDevice(xs, cfg[|xs|]);
    } else {
      NoRoom(xs);
    }
  }

  /** The devices `ys` are `xs` followed by what each configured device holds when written alone. */
  ghost predicate Loaded(xs: seq<Pairs>, cfg: IfaceCfg, ys: seq<Pairs>) {
    xs <= ys && forall j | |xs| <= j < |ys| :: j in cfg && Wrote(cfg[j]) == Ok(ys[j])
  }

  /** With devices numbered 0..n-1, device `j` is created as number `j` and gets its own pairs:
      writing succeeds exactly when there are at most 256 devices and each can be written alone. */
  lemma {:induction false} WriteDevsOf(xs: seq<Pairs>, cfg: IfaceCfg, n: nat) returns (ys: seq<Pairs>)
    requires |xs| <= n && |xs| <= MAX_DEVICES && IsRange(cfg.Keys, 0, n)
    requires forall k | k in Count(|xs|, n) :: k in cfg
    ensures WriteDevs(DevsOf(xs), cfg, Count(|xs|, n)).Ok? <==>
      n <= MAX_DEVICES && forall j | |xs| <= j < n :: j in cfg && Wrote(cfg[j]).Ok?
    ensures WriteDevs(DevsOf(xs), cfg, Count(|xs|, n)).Ok? ==>
      |ys| == n && Loaded(xs, cfg, ys) && WriteDevs(DevsOf(xs), cfg, Count(|xs|, n)).value == DevsOf(ys)
    decreases n - |xs|
  {
    hide DevsOf, Wrote, WriteDevs;
    var m := |xs|;
    var ks := Count(m, n);
    ys := xs;
    if m < n {
      assert ks == [m] + Count(m + 1, n);
      assert m in cfg.Keys;
      OneMore(xs, cfg, ks);
      if m < MAX_DEVICES && Wrote(cfg[m]).Ok? {
        ys := WriteDevsOf(xs + [Wrote(cfg[m]).value], cfg, n);
      }
    } else {
      NoDevices(DevsOf(xs), cfg);
    }
  }

  lemma NoDevices(r: Devs, cfg: IfaceCfg)
    ensures WriteDevs(r, cfg, []) == Ok(r)
  {
  }

  lemma ReadIfaceOf(ys: seq<Pairs>)
    ensures forall j: nat :: j in ReadIface(DevsOf(ys)) <==> j < |ys|
    ensures forall j | 0 <= j < |ys| :: ReadIface(DevsOf(ys))[j] == ReadPairs(ys[j])
  {
    hide ToMap, ReadPairs;
    var recs := DevsOf(ys).recs;
    MapHas(recs);
    forall j: nat
      ensures j in ToMap(recs) <==> j < |ys|
      ensures j < |ys| ==> ToMap(recs)[j] == ys[j]
    {
      if j < |ys| {
        assert recs[|ys| - 1 - j] == Rec(j, ys[j]);
      }
    }
  }

  /** An interface that was loaded and reads back as its own canonical form. */
  ghost predicate IfaceRoundTrips(cfg: IfaceCfg) {
    var w := WriteIface(Empty(MAX_DEVICES), cfg);
    w.Ok? && ReadIface(w.value) == CanonIface(cfg)
  }

  /** At most 256 devices without gaps, each with pairs without gaps that can all be loaded. */
  ghost predicate LoadableIface(cfg: IfaceCfg) {
    |cfg| <= MAX_DEVICES && NoGaps(cfg.Keys) && forall j | j in cfg :: NoGaps(cfg[j].Keys) && LoadableDev(cfg[j])
  }

  lemma EmptyIface()
    ensures Empty(MAX_DEVICES) == DevsOf([]) && Numbered(Empty(MAX_DEVICES), 0)
  {
    EmptyAgrees<Pairs>(MAX_DEVICES);
  }

  lemma NoGapsIfReadBack(cfg: IfaceCfg)
    requires IfaceRoundTrips(cfg)
    ensures NoGaps(cfg.Keys)
  {
    hide WriteDevs, ReadIface, CanonDev, Numbered, IsRange;
    EmptyIface();
    var ks := SortedKeys(cfg.Keys);
    WriteDevsNumbered(Empty(MAX_DEVICES), cfg, ks, 0);
    var r := WriteIface(Empty(MAX_DEVICES), cfg).value;
    NumberedKeys(r, |ks|);
    assert forall i: nat :: i in cfg.Keys <==> i in CanonIface(cfg);
    KeysAre(cfg, |ks|);
  }

  /** What an interface numbered without gaps holds after writing it, if it can be written. */
  lemma WriteIfaceOf(cfg: IfaceCfg) returns (ys: seq<Pairs>)
    requires NoGaps(cfg.Keys)
    ensures WriteIface(Empty(MAX_DEVICES), cfg).Ok? <==>
      |cfg| <= MAX_DEVICES && forall j | j in cfg :: Wrote(cfg[j]).Ok?
    ensures WriteIface(Empty(MAX_DEVICES), cfg).Ok? ==>
      |ys| == |cfg| && Loaded([], cfg, ys) && WriteIface(Empty(MAX_DEVICES), cfg).value == DevsOf(ys)
    ensures forall j: nat :: j in cfg <==> j < |cfg|
  {
    hide WriteDevs, Wrote, DevsOf, SortedKeys;
    EmptyIface();
    assert |cfg.Keys| == |cfg|;
    SortedRange(cfg.Keys, 0, |cfg|);
    ys := WriteDevsOf([], cfg, |cfg|);
    assert forall j: nat :: j in cfg <==> j in cfg.Keys;
  }

  /** Loading an interface and reading it back gives its canonical form, exactly when devices and
      pairs are numbered without gaps and everything fits the limits. */
  lemma InterfaceRoundTrip(cfg: IfaceCfg)
    ensures IfaceRoundTrips(cfg) <==> LoadableIface(cfg)
  {
    hide WriteIface, ReadIface, DevsOf, NoGaps, LoadableDev, ReadPairs, CanonDev, WriteTexts, Texts;
    if IfaceRoundTrips(cfg) {
      NoGapsIfReadBack(cfg);
    }
    if NoGaps(cfg.Keys) {
      var ys := WriteIfaceOf(cfg);
      ReadIfaceOf(ys);
      forall j | j in cfg
        ensures DevRoundTrips(cfg[j]) <==> NoGaps(cfg[j].Keys) && LoadableDev(cfg[j])
      {
        DeviceRoundTrip(cfg[j]);
      }
      if LoadableIface(cfg) {
        assert forall j | j in cfg :: DevRoundTrips(cfg[j]);
        assert ReadIface(DevsOf(ys)) == CanonIface(cfg);
      }
      if IfaceRoundTrips(cfg) {
        forall j | j in cfg
          ensures DevRoundTrips(cfg[j])
        {
          assert ReadIface(DevsOf(ys))[j] == CanonIface(cfg)[j];
        }
      }
    }
  }

  // ---- The whole module ----

  type Config = map<Kind, IfaceCfg>

  datatype Module = Module(tty: Devs, i2c: Devs, net: Devs, spi: Devs) {
    function Get(k: Kind): Devs {
      match k case Tty => tty case I2c => i2c case Net => net case Spi => spi
    }

    function Set(k: Kind, r: Devs): Module {
      match k
      case Tty => this.(tty := r)
      case I2c => this.(i2c := r)
      case Net => this.(net := r)
      case Spi => this.(spi := r)
    }
  }

  function EmptyModule(): Module {
    var e := Empty(MAX_DEVICES);
    Module(e, e, e, e)
  }

  /** `write_config`, visiting the interfaces in the order of the configuration's dictionary. */
  function WriteConfig(m: Module, cfg: Config, order: seq<Kind>): Result<Module, int>
    requires forall k | k in order :: k in cfg
    decreases |order|
  {
    if order == [] then Ok(m)
    else match WriteIface(m.Get(order[0]), cfg[order[0]])
      case Err(e) => Err(e)
      case Ok(r) => WriteConfig(m.Set(order[0], r), cfg, order[1..])
  }

  lemma GetAfterSet(m: Module, k: Kind, r: Devs)
    ensures forall k': Kind :: m.Set(k, r).Get(k') == if k' == k then r else m.Get(k')
  {
  }

  lemma {:induction false} WriteConfigIs(m: Module, cfg: Config, order: seq<Kind>)
    requires forall k | k in order :: k in cfg
    requires forall i, j | 0 <= i < j < |order| :: order[i] != order[j]
    ensures WriteConfig(m, cfg, order).Ok? <==> forall k | k in order :: WriteIface(m.Get(k), cfg[k]).Ok?
    ensures WriteConfig(m, cfg, order).Ok? ==>
      forall k: Kind :: WriteConfig(m, cfg, order).value.Get(k) ==
        if k in order then WriteIface(m.Get(k), cfg[k]).value else m.Get(k)
    decreases |order|
  {
    hide WriteIface, Module.Get, Module.Set;
    if order != [] {
      var k := order[0];
      assert order == [k] + order[1..];
      var w := WriteIface(m.Get(k), cfg[k]);
      if w.Ok? {
        GetAfterSet(m, k, w.value);
        WriteConfigIs(m.Set(k, w.value), cfg, order[1..]);
        assert k !in order[1..];
      }
    }
  }

  function CanonOf(cfg: Config, k: Kind): IfaceCfg {
    if k in cfg then CanonIface(cfg[k]) else map[]
  }

  /** Replaying a configuration into an empty module and reading the module back gives the
      configuration in canonical form, in every order of the interfaces, exactly when each
      interface is numbered without gaps and within the limits, all its texts are valid, and the
      request bytes of each device are distinct. */
  lemma ConfigRoundTrip(cfg: Config, order: seq<Kind>)
    requires forall k :: k in order <==> k in cfg
    requires forall i, j | 0 <= i < j < |order| :: order[i] != order[j]
    ensures var w := WriteConfig(EmptyModule(), cfg, order);
      (w.Ok? && forall k: Kind :: ReadIface(w.value.Get(k)) == CanonOf(cfg, k))
      <==> forall k | k in cfg :: LoadableIface(cfg[k])
  {
    hide WriteIface, ReadIface, CanonIface, LoadableIface, WriteConfig;
    WriteConfigIs(EmptyModule(), cfg, order);
    forall k | k in cfg
      ensures IfaceRoundTrips(cfg[k]) <==> LoadableIface(cfg[k])
    {
      InterfaceRoundTrip(cfg[k]);
    }
    ReadEmpty();
    var w := WriteConfig(EmptyModule(), cfg, order);
    if w.Ok? && forall k: Kind :: ReadIface(w.value.Get(k)) == CanonOf(cfg, k) {
      forall k | k in cfg
        ensures IfaceRoundTrips(cfg[k])
      {
        assert ReadIface(w.value.Get(k)) == CanonOf(cfg, k);
      }
    }
  }

  lemma ReadEmpty()
    ensures ReadIface(Empty(MAX_DEVICES)) == map[]
  {
    MapEmpty<Pairs>();
  }
}
