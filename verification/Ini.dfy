/** The validation loop of control/hwectl.py: what it accepts, the module accepts. */
module Ini {
  import opened Base
  import opened Hex
  import opened PairCodec
  import opened ConfigReplay
  import TimeGrammar

  /** A value of the file: plain text, or a quoted text given by its UTF-8 bytes. */
  datatype Value = Plain(text: string) | Quoted(bytes: seq<byte>)

  /** `convert_quoted`. */
  function Convert(v: Value): string {
    match v case Plain(text) => text case Quoted(bytes) => Encode(bytes)
  }

  /** The checks on a key that is not quoted. */
  ghost predicate KeyOk(k: string) {
    if AllHex(k) then |k| <= MAX_REQUEST * 2 && |k| % 2 == 0
    else exists w, t :: k == TIMER + w && TimeGrammar.CheckAsyncKey(w, t)
  }

  predicate ValueOk(v2: string) {
    |v2| >= 1 && AllHex(v2) && |v2| <= MAX_RESPONSE * 2 && |v2| % 2 == 0
  }

  /** The pair text put into the configuration. */
  function PairText(k: string, v: Value): string {
    k + "=" + Convert(v)
  }

  lemma KeyDenotesPair(k: string) returns (p: Pair)
    requires k != "" && KeyOk(k)
    ensures KeyDenotes(k, p) && (p.asyncRx <==> !AllHex(k))
  {
    hide Decode, TimeGrammar.CheckAsyncKeyBy, TimeGrammar.DenotesBy;
    if AllHex(k) {
      p := Pair(Decode(k), [], false, 0);
    } else {
      var w, t :| k == TIMER + w && TimeGrammar.CheckAsyncKey(w, t);
      ScriptKeyDenotes(w, t);
      p := Pair([], [], true, t);
    }
  }

  /** A time the script accepts, the scanner accepts: its numbers are small, so they do not wrap. */
  lemma ScriptKeyDenotes(w: string, t: nat)
    requires TimeGrammar.CheckAsyncKey(w, t)
    ensures TimeGrammar.Denotes(w, t)
  {
    var ds :| TimeGrammar.CheckAsyncKeyBy(w, t, ds);
    TimeGrammar.SameChecks(w, t, ds);
  }

  /** Whatever key and value the script accepts, the module's parser accepts. */
  lemma ValidatorSound(k: string, v: Value) returns (p: Pair)
    requires k != "" && KeyOk(k) && ValueOk(Convert(v))
    ensures StrToPair(PairText(k, v)) == Ok(p) && p.resp == Decode(Convert(v))
    ensures p.asyncRx <==> !AllHex(k)
    ensures AllHex(k) ==> |k| % 2 == 0 && p.req == Decode(k)
  {
    hide Decode, StrToPair, Convert;
    var q := KeyDenotesPair(k);
    p := q.(resp := Decode(Convert(v)));
    assert KeyDenotes(k, p);
    assert PairText(k, v) == k + "=" + Convert(v) + "";
    LineAccepted(PairText(k, v), k, Convert(v), "", p);
  }

  /** The keys that only the module takes: a time whose number of 2^64 or more wraps into range, or a
      time without "timer:". */
  ghost predicate Lenient(k: string) {
    !AllHex(k) && if TIMER <= k then TimeGrammar.WrapsIntoRange(k[|TIMER|..]) else exists t :: TimeGrammar.Denotes(k, t)
  }

  /** The keys the module takes are those the script takes, and the lenient ones. */
  lemma KeysOfModule(k: string)
    requires k != ""
    ensures (exists p :: KeyDenotes(k, p)) <==> KeyOk(k) || Lenient(k)
    ensures KeyOk(k) ==> !Lenient(k)
  {
    hide Decode, TimeGrammar.Denotes, TimeGrammar.CheckAsyncKey, TimeGrammar.WrapsIntoRange;
    if AllHex(k) {
      HexKeys(k);
    } else if TIMER <= k {
      var w := k[|TIMER|..];
      assert k == TIMER + w;
      TimerKeys(w);
      TimeKeys(k);
      TimeGrammar.AgreeUnlessWrapped(w);
    } else {
      TimeKeys(k);
      assert forall w :: k != TIMER + w;
    }
  }

  lemma TimeKeyIsNoHex(k: string, p: Pair)
    requires KeyDenotes(k, p)
    ensures p.asyncRx ==> !AllHex(k)
  {
    hide Decode, TimeGrammar.Denotes;
    if p.asyncRx {
      var w :| TimeGrammar.Denotes(w, p.periodMs) && (k == w || k == TIMER + w);
      TimeTextShape(w, p.periodMs);
      if k == TIMER + w {
        assert k[0] == 't';
      }
    }
  }

  lemma HexKeys(k: string)
    requires k != "" && AllHex(k)
    ensures (exists p :: KeyDenotes(k, p)) <==> KeyOk(k)
  {
    hide Decode, TimeGrammar.Denotes;
    forall p | KeyDenotes(k, p)
      ensures !p.asyncRx
    {
      TimeKeyIsNoHex(k, p);
    }
    if KeyOk(k) {
      assert KeyDenotes(k, Pair(Decode(k), [], false, 0));
    }
  }

  /** For the module, a key that is no digit string is a time, with or without "timer:". */
  lemma TimeKeys(k: string)
    requires !AllHex(k)
    ensures var x := if TIMER <= k then k[|TIMER|..] else k;
      (exists p :: KeyDenotes(k, p)) <==> (exists t :: TimeGrammar.Denotes(x, t))
  {
    hide Decode, TimeGrammar.Denotes;
    var x := if TIMER <= k then k[|TIMER|..] else k;
    if p :| KeyDenotes(k, p) {
      var w :| TimeGrammar.Denotes(w, p.periodMs) && (k == w || k == TIMER + w);
      if TIMER <= k {
        assert k == TIMER + x;
        TimerKey(x, p.periodMs);
      }
      assert TimeGrammar.Denotes(x, p.periodMs);
    }
    if t :| TimeGrammar.Denotes(x, t) {
      assert TIMER <= k ==> k == TIMER + x;
      assert KeyDenotes(k, Pair([], [], true, t));
    }
  }

  lemma TimerKeys(w: string)
    ensures KeyOk(TIMER + w) <==> exists t :: TimeGrammar.CheckAsyncKey(w, t)
  {
    hide TimeGrammar.CheckAsyncKey;
    assert (TIMER + w)[0] == 't';
    assert forall x | TIMER + w == TIMER + x :: x == (TIMER + x)[|TIMER|..] == w;
  }

  /** Where the module is more lenient, exactly: script and module accept the same keys and values
      but for the lenient keys, which the script refuses. A key without '=' and a value without a
      newline is how the file's reader splits a line. */
  lemma ValidatorExact(k: string, v: Value)
    requires k != "" && (forall i | 0 <= i < |k| :: k[i] != '=') && (forall i | 0 <= i < |Convert(v)| :: Convert(v)[i] != '\n')
    ensures StrToPair(PairText(k, v)).Ok? <==> ValueOk(Convert(v)) && (KeyOk(k) || Lenient(k))
    ensures KeyOk(k) ==> !Lenient(k)
  {
    hide Decode, StrToPair, Convert, KeyDenotes, KeyOk, Lenient;
    KeysOfModule(k);
    var text := PairText(k, v);
    if StrToPair(text).Ok? {
      PlainLine(k, Convert(v), StrToPair(text).value);
    }
    if p :| KeyDenotes(k, p) && ValueOk(Convert(v)) {
      var q := p.(resp := Decode(Convert(v)));
      assert KeyDenotes(k, q) by { ResponseIsOpen(k, p, q); }
      PlainLine(k, Convert(v), q);
    }
  }

  lemma ResponseIsOpen(k: string, p: Pair, q: Pair)
    requires KeyDenotes(k, p) && q == p.(resp := q.resp)
    ensures KeyDenotes(k, q)
  {
    hide Decode, TimeGrammar.Denotes;
  }

  /** A lenient line: the module takes "1h=aa" for an hour, and the script refuses it. */
  lemma LenientTime()
    ensures StrToPair("1h=aa").Ok? && !KeyOk("1h") && Lenient("1h")
  {
    hide StrToPair, Decode, TimeGrammar.Denotes;
    var t := 3600000;
    OneHour();
    assert !IsHex("1h"[1]);
    assert !(TIMER <= "1h");
    assert Lenient("1h");
    assert PairText("1h", Plain("aa")) == "1h=aa";
    ValidatorExact("1h", Plain("aa"));
  }

  lemma OneHour()
    ensures TimeGrammar.Denotes("1h", 3600000)
  {
    var ds: TimeGrammar.Fields := ["1", "", "", ""];
    TimeGrammar.GroupOnly("1");
    TimeGrammar.SumIs(ds);
    TimeGrammar.EmptyValues();
    assert TimeGrammar.DenotesBy("1h", 3600000, ds);
  }

  /** What a value of the file becomes: a quoted text the response of just its bytes, acceptable by its
      length alone; a plain text the bytes its digits stand for. */
  lemma ValueMeans(k: string, v: Value)
    requires k != "" && KeyOk(k)
    ensures v.Quoted? ==> (ValueOk(Convert(v)) <==> 1 <= |v.bytes| <= MAX_RESPONSE)
    ensures v.Plain? ==> PairText(k, v) == k + "=" + v.text
    ensures ValueOk(Convert(v)) ==> StrToPair(PairText(k, v)).Ok?
    ensures ValueOk(Convert(v)) ==>
      StrToPair(PairText(k, v)).value.resp == match v { case Quoted(bytes) => bytes case Plain(text) => Decode(text) }
  {
    hide Decode, Encode, StrToPair, KeyOk;
    if v.Quoted? {
      DecodeEncode(v.bytes);
    }
    if ValueOk(Convert(v)) {
      var p := ValidatorSound(k, v);
    }
  }

  // ---- The loop over sections ----

  /** A section: its name and its keys and values, in order. The file's reader has made the keys
      lowercase, and refuses a repeated or empty key. Quoted keys are not part of this model. */
  datatype Section = Section(name: string, items: seq<(string, Value)>)

  predicate ReadKeys(items: seq<(string, Value)>) {
    && (forall i | 0 <= i < |items| :: items[i].0 != "" && Lowercase(items[i].0) == items[i].0)
    && (forall i, j | 0 <= i < j < |items| :: items[i].0 != items[j].0)
  }

  /** `extern_dev_name_to_iface`. */
  function KindOf(name: string): Option<Kind> {
    if "i2c-" <= name then Some(I2c)
    else if "ttyUSB" <= name then Some(Tty)
    else if "eth" <= name then Some(Net)
    else if "spi-" <= name then Some(Spi)
    else None
  }

  /** How the name of a device of each interface starts. */
  function Prefix(kind: Kind): string {
    match kind case I2c => "i2c-" case Tty => "ttyUSB" case Net => "eth" case Spi => "spi-"
  }

  /** A section goes to an interface exactly when its name starts as the names of its devices do;
      so no name belongs to two. */
  lemma KindIsPrefix(name: string, kind: Kind)
    ensures KindOf(name) == Some(kind) <==> Prefix(kind) <= name
  {
    assert Prefix(kind) <= name ==> name[0] == Prefix(kind)[0];
    assert KindOf(name).Some? ==> name[0] == Prefix(KindOf(name).value)[0];
  }

  ghost predicate ItemsOk(items: seq<(string, Value)>) {
    forall i | 0 <= i < |items| :: KeyOk(items[i].0) && ValueOk(Convert(items[i].1))
  }

  function DevOf(items: seq<(string, Value)>): DevCfg {
    map i: nat | i < |items| :: PairText(items[i].0, items[i].1)
  }

  function IfKind(s: Section, kind: Kind): seq<Section> {
    if KindOf(s.name) == Some(kind) then [s] else []
  }

  /** The sections for devices of one kind, in the order of the file. */
  function OfKind(sections: seq<Section>, kind: Kind): seq<Section> {
    if sections == [] then []
    else
      var n := |sections| - 1;
      OfKind(sections[..n], kind) + IfKind(sections[n], kind)
  }

  /** The devices of one kind, numbered in the order of the file. */
  function IfaceOf(sections: seq<Section>): IfaceCfg {
    map j: nat | j < |sections| :: DevOf(sections[j].items)
  }

  /** The file passes all checks. */
  ghost predicate FileOk(sections: seq<Section>) {
    && (forall i | 0 <= i < |sections| :: KindOf(sections[i].name).Some? && ItemsOk(sections[i].items))
    && (forall kind: Kind :: |OfKind(sections, kind)| <= MAX_DEVICES)
  }

  /** The sections of all kinds are those of the file. */
  lemma {:induction false} OfKindHas(sections: seq<Section>, kind: Kind)
    ensures forall s | s in OfKind(sections, kind) :: s in sections
    ensures forall s | s in sections && KindOf(s.name) == Some(kind) :: s in OfKind(sections, kind)
    decreases |sections|
  {
    hide KindOf;
    if sections != [] {
      var n := |sections| - 1;
      OfKindHas(sections[..n], kind);
      assert sections == sections[..n] + [sections[n]];
    }
  }

  lemma RequestsApart(items: seq<(string, Value)>, i: nat, j: nat)
    requires ReadKeys(items) && ItemsOk(items) && i < |items| && j < |items| && i != j
    ensures SyncApart(StrToPair(PairText(items[i].0, items[i].1)), StrToPair(PairText(items[j].0, items[j].1)))
  {
    hide StrToPair, Decode, Lowercase, PairText, KeyOk, ValueOk;
    var a, b := items[i].0, items[j].0;
    var p := ValidatorSound(a, items[i].1);
    var q := ValidatorSound(b, items[j].1);
    if AllHex(a) && AllHex(b) {
      EncodeDecode(a);
      EncodeDecode(b);
    }
  }

  /** The texts of a section that passes the checks are all valid, and different keys mean different
      requests; so it is a device the module can load exactly when it has few enough pairs, which is
      what the script does not check. */
  lemma SectionLoads(items: seq<(string, Value)>)
    requires ReadKeys(items) && ItemsOk(items)
    ensures NoGaps(DevOf(items).Keys) && (LoadableDev(DevOf(items)) <==> |items| <= MAX_PAIRS)
  {
    hide StrToPair, PairText, KeyOk, ValueOk, SyncApart;
    var d := DevOf(items);
    assert forall i: nat :: i in d.Keys <==> i < |items|;
    KeysAre(d, |items|);
    forall i | i in d
      ensures StrToPair(d[i]).Ok?
    {
      var p := ValidatorSound(items[i].0, items[i].1);
    }
    forall i, j | i in d && j in d && i != j
      ensures SyncApart(StrToPair(d[i]), StrToPair(d[j]))
    {
      RequestsApart(items, i, j);
    }
  }

  /** `cfg` has an interface for every kind in the file; its devices are the sections in order. */
  ghost predicate IsConfig(sections: seq<Section>, cfg: Config) {
    forall kind: Kind ::
      && (kind in cfg <==> OfKind(sections, kind) != [])
      && (kind in cfg ==> cfg[kind] == IfaceOf(OfKind(sections, kind)))
  }

  predicate SectionsFit(sections: seq<Section>) {
    forall s | s in sections :: |s.items| <= MAX_PAIRS
  }

  lemma SectionsLoad(devs: seq<Section>)
    requires |devs| <= MAX_DEVICES && forall s | s in devs :: ReadKeys(s.items) && ItemsOk(s.items)
    ensures LoadableIface(IfaceOf(devs)) <==> SectionsFit(devs)
  {
    hide LoadableDev, ItemsOk, ReadKeys, DevOf, NoGaps;
    var cfg := IfaceOf(devs);
    assert forall j: nat :: j in cfg.Keys <==> j < |devs|;
    KeysAre(cfg, |devs|);
    forall j | 0 <= j < |devs|
      ensures j in cfg && NoGaps(cfg[j].Keys) && (LoadableDev(cfg[j]) <==> |devs[j].items| <= MAX_PAIRS)
    {
      assert devs[j] in devs;
      SectionLoads(devs[j].items);
    }
  }

  /** What `load_from_ini` makes of a file that passes all its checks loads into an empty module and
      reads back in canonical form, exactly when no section has more than 1000 pairs. */
  lemma FileLoads(sections: seq<Section>, cfg: Config, order: seq<Kind>)
    requires FileOk(sections) && IsConfig(sections, cfg) && forall s | s in sections :: ReadKeys(s.items)
    requires forall k :: k in order <==> k in cfg
    requires forall i, j | 0 <= i < j < |order| :: order[i] != order[j]
    ensures var w := WriteConfig(EmptyModule(), cfg, order);
      (w.Ok? && forall k: Kind :: ReadIface(w.value.Get(k)) == CanonOf(cfg, k)) <==> SectionsFit(sections)
  {
    hide ItemsOk, ReadKeys, KindOf, OfKind, IfaceOf, LoadableIface, WriteConfig, ReadIface, CanonOf;
    ConfigRoundTrip(cfg, order);
    forall k | k in cfg
      ensures LoadableIface(cfg[k]) <==> SectionsFit(OfKind(sections, k))
    {
      OfKindHas(sections, k);
      SectionsLoad(OfKind(sections, k));
    }
    KindsTogether(sections, cfg);
  }

  /** The sections of the file whose names start as those of `kind` do. */
  function CountOf(sections: seq<Section>, kind: Kind): nat {
    if sections == [] then 0
    else
      var n := |sections| - 1;
      CountOf(sections[..n], kind) + if Prefix(kind) <= sections[n].name then 1 else 0
  }

  /** Section `x` is the device with as many before it as there are earlier sections of its kind. */
  lemma {:induction false} SectionAt(sections: seq<Section>, kind: Kind, x: nat)
    requires x < |sections| && Prefix(kind) <= sections[x].name
    ensures CountOf(sections[..x], kind) < |OfKind(sections, kind)| == CountOf(sections, kind)
    ensures OfKind(sections, kind)[CountOf(sections[..x], kind)] == sections[x]
    decreases |sections|
  {
    hide KindOf, Prefix;
    var n := |sections| - 1;
    KindIsPrefix(sections[n].name, kind);
    CountIsLength(sections[..n], kind);
    if x < n {
      assert sections[..n][..x] == sections[..x];
      SectionAt(sections[..n], kind, x);
    }
  }

  lemma {:induction false} CountIsLength(sections: seq<Section>, kind: Kind)
    ensures |OfKind(sections, kind)| == CountOf(sections, kind)
    decreases |sections|
  {
    hide KindOf, Prefix;
    if sections != [] {
      var n := |sections| - 1;
      KindIsPrefix(sections[n].name, kind);
      CountIsLength(sections[..n], kind);
    }
  }

  /** After loading a file, pair `i` of section `x` is read back at index `i` of the device whose number
      is the count of earlier sections for the same interface, in its canonical text. */
  lemma FileReadsBack(sections: seq<Section>, cfg: Config, order: seq<Kind>, x: nat, kind: Kind, i: nat)
    requires FileOk(sections) && IsConfig(sections, cfg) && forall s | s in sections :: ReadKeys(s.items)
    requires forall k :: k in order <==> k in cfg
    requires forall i, j | 0 <= i < j < |order| :: order[i] != order[j]
    requires SectionsFit(sections) && x < |sections| && Prefix(kind) <= sections[x].name && i < |sections[x].items|
    ensures WriteConfig(EmptyModule(), cfg, order).Ok?
    ensures var devs := ReadIface(WriteConfig(EmptyModule(), cfg, order).value.Get(kind));
      var j := CountOf(sections[..x], kind); var (k, v) := sections[x].items[i];
      && j in devs && i in devs[j] && StrToPair(k + "=" + Convert(v)).Ok?
      && devs[j][i] == PairToStr(StrToPair(k + "=" + Convert(v)).value)
  {
    hide KindOf, OfKind, CountOf, WriteConfig, ReadIface, KeyOk, ValueOk, Prefix, Convert, StrToPair, PairToStr, ReadKeys;
    FileLoads(sections, cfg, order);
    SectionAt(sections, kind, x);
    var devs, j := OfKind(sections, kind), CountOf(sections[..x], kind);
    var m := WriteConfig(EmptyModule(), cfg, order).value;
    assert ReadIface(m.Get(kind)) == CanonOf(cfg, kind) == CanonIface(IfaceOf(devs));
    var (k, v) := sections[x].items[i];
    ItemNotEmpty(sections[x].items, i);
    var p := ValidatorSound(k, v);
    DeviceReadsBack(devs, j, i);
  }

  lemma ItemNotEmpty(items: seq<(string, Value)>, i: nat)
    requires ReadKeys(items) && i < |items|
    ensures items[i].0 != ""
  {
  }

  lemma DeviceReadsBack(devs: seq<Section>, j: nat, i: nat)
    requires j < |devs| && i < |devs[j].items|
    ensures var read := CanonIface(IfaceOf(devs)); var (k, v) := devs[j].items[i];
      j in read && i in read[j] && read[j][i] == CanonText(k + "=" + Convert(v))
  {
    hide CanonText, Convert;
  }

  lemma KindsTogether(sections: seq<Section>, cfg: Config)
    requires IsConfig(sections, cfg) && forall s | s in sections :: KindOf(s.name).Some?
    ensures SectionsFit(sections) <==> forall k | k in cfg :: SectionsFit(OfKind(sections, k))
  {
    hide KindOf, OfKind;
    forall k: Kind
      ensures forall s | s in OfKind(sections, k) :: s in sections
      ensures forall s | s in sections && KindOf(s.name) == Some(k) :: s in OfKind(sections, k)
    {
      OfKindHas(sections, k);
    }
    forall s | s in sections
      ensures KindOf(s.name).value in cfg && s in OfKind(sections, KindOf(s.name).value)
    {
      OfKindHas(sections, KindOf(s.name).value);
    }
  }

  /** The configuration of the sections read so far. */
  ghost predicate Built(sections: seq<Section>, counts: map<Kind, nat>, cfg: Config) {
    forall kind: Kind :: var devs := OfKind(sections, kind);
      && kind in counts && counts[kind] == |devs| <= MAX_DEVICES
      && (kind in cfg <==> devs != [])
      && (kind in cfg ==> cfg[kind] == IfaceOf(devs))
  }

  /** The inner loop of `load_from_ini`: the pairs of one section, or an error. */
  ghost method LoadSection(items: seq<(string, Value)>) returns (pairs: Option<DevCfg>)
    ensures pairs == if ItemsOk(items) then Some(DevOf(items)) else None
  {
    hide KeyOk, ValueOk, PairText;
    var d: DevCfg := map[];
    for i := 0 to |items|
      invariant forall n | 0 <= n < i :: KeyOk(items[n].0) && ValueOk(Convert(items[n].1))
      invariant d == map n: nat | n < i :: PairText(items[n].0, items[n].1)
    {
      var (k, v) := items[i];
      if !KeyOk(k) || !ValueOk(Convert(v)) {
        return None;
      }
      d := d[i := PairText(k, v)];
    }
    return Some(d);
  }

  /** `load_from_ini`: device `j` of an interface is the j-th section for it; an error at the first
      section that fails a check, so a configuration exactly when the file passes all of them. */
  ghost method LoadFromIni(sections: seq<Section>) returns (r: Option<Config>)
    ensures r.Some? <==> FileOk(sections)
    ensures r.Some? ==> IsConfig(sections, r.value)
  {
    hide ItemsOk, DevOf, OfKind, KindOf, Built;
    var counts: map<Kind, nat> := map[Tty := 0, I2c := 0, Net := 0, Spi := 0];
    var cfg: Config := map[];
    NoSections(counts);
    for i := 0 to |sections|
      invariant Built(sections[..i], counts, cfg)
      invariant forall n | 0 <= n < i :: KindOf(sections[n].name).Some? && ItemsOk(sections[n].items)
    {
      var s := sections[i];
      var kind := KindOf(s.name);
      if kind.None? {
        return None;
      }
      CountIs(sections[..i], counts, cfg, kind.value);
      if counts[kind.value] == MAX_DEVICES {
        OneSection(sections, i);
        IsOfKind(sections[i], kind.value);
        TooMany(sections, i, kind.value);
        return None;
      }
      var pairs := LoadSection(s.items);
      if pairs.None? {
        return None;
      }
      var before := if kind.value in cfg then cfg[kind.value] else map[];
      BuiltStep(sections, i, counts, cfg, kind.value, before);
      cfg := cfg[kind.value := before[counts[kind.value] := pairs.value]];
      counts := counts[kind.value := counts[kind.value] + 1];
    }
    assert sections[..|sections|] == sections;
    BuiltIs(sections, counts, cfg);
    return Some(cfg);
  }

  lemma CountIs(sections: seq<Section>, counts: map<Kind, nat>, cfg: Config, kind: Kind)
    requires Built(sections, counts, cfg)
    ensures kind in counts && counts[kind] == |OfKind(sections, kind)| <= MAX_DEVICES
  {
    hide OfKind;
    var devs := OfKind(sections, kind);
  }

  lemma IsOfKind(s: Section, kind: Kind)
    requires KindOf(s.name) == Some(kind)
    ensures IfKind(s, kind) == [s]
  {
  }

  lemma BuiltIs(sections: seq<Section>, counts: map<Kind, nat>, cfg: Config)
    requires Built(sections, counts, cfg)
    ensures forall kind: Kind :: |OfKind(sections, kind)| <= MAX_DEVICES
    ensures forall kind: Kind :: kind in cfg <==> OfKind(sections, kind) != []
    ensures forall kind: Kind :: kind in cfg ==> cfg[kind] == IfaceOf(OfKind(sections, kind))
  {
    hide OfKind, IfaceOf;
  }

  lemma BuiltStep(sections: seq<Section>, i: nat, counts: map<Kind, nat>, cfg: Config, kind: Kind, before: IfaceCfg)
    requires i < |sections| && KindOf(sections[i].name) == Some(kind)
    requires Built(sections[..i], counts, cfg) && kind in counts && counts[kind] < MAX_DEVICES
    requires before == if kind in cfg then cfg[kind] else map[]
    ensures Built(sections[..i + 1], counts[kind := counts[kind] + 1],
      cfg[kind := before[counts[kind] := DevOf(sections[i].items)]])
  {
    hide OfKind, KindOf, DevOf;
    OneSection(sections, i);
    Grown(OfKind(sections[..i], kind), sections[i], before);
  }

  lemma NoSections(counts: map<Kind, nat>)
    requires counts == map[Tty := 0, I2c := 0, Net := 0, Spi := 0]
    ensures Built([], counts, map[])
  {
    forall kind: Kind
      ensures kind in counts && counts[kind] == 0
    {
      match kind case Tty => case I2c => case Net => case Spi =>
    }
  }

  lemma OneSection(sections: seq<Section>, i: nat)
    requires i < |sections|
    ensures forall kind :: OfKind(sections[..i + 1], kind) == OfKind(sections[..i], kind) + IfKind(sections[i], kind)
  {
    hide KindOf;
    assert sections[..i + 1][..i] == sections[..i];
  }

  lemma Grown(devs: seq<Section>, s: Section, before: IfaceCfg)
    requires before == IfaceOf(devs)
    ensures before[|devs| := DevOf(s.items)] == IfaceOf(devs + [s])
  {
    hide DevOf;
  }

  lemma {:induction false} TooMany(sections: seq<Section>, i: nat, kind: Kind)
    requires i < |sections| && |OfKind(sections[..i + 1], kind)| > MAX_DEVICES
    ensures |OfKind(sections, kind)| > MAX_DEVICES
    decreases |sections| - i
  {
    hide KindOf;
    if i + 1 < |sections| {
      OneSection(sections, i + 1);
      TooMany(sections, i + 1, kind);
    } else {
      assert sections[..i + 1] == sections;
    }
  }
}
