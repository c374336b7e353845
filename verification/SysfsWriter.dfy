/** `traverse_config` with the callbacks of `write_config` (tests/config_sysfs.py): nested loops that
    write files one after the other and stop at the first error, leaving what was written before it. */
module SysfsWriter {
  import opened Base
  import opened Registry
  import opened PairRegistry
  import opened DeviceRegistry
  import opened ConfigReplay

  // ---- Where the loops stop ----

  /** Writing `texts` to device `j` stopped at one of them with `err`: those before it are in `r'`. */
  ghost predicate PairsStopped(r: Devs, j: nat, texts: seq<string>, r': Devs, err: int) {
    exists i | 0 <= i < |texts| :: PairsStoppedAt(r, j, texts, i, r', err)
  }

  ghost predicate PairsStoppedAt(r: Devs, j: nat, texts: seq<string>, i: int, r': Devs, err: int) {
    0 <= i < |texts| && WritePairs(r, j, texts[..i]) == Ok(r') && WritePairs(r', j, [texts[i]]) == Err(err)
  }

  /** Writing the devices `ks` stopped at one of them: at its creation, or at one of its pairs. */
  ghost predicate DevsStopped(r: Devs, cfg: IfaceCfg, ks: seq<nat>, r': Devs, err: int)
    requires forall k | k in ks :: k in cfg
  {
    exists i, mid | 0 <= i < |ks| :: DevsStoppedAt(r, cfg, ks, i, mid, r', err)
  }

  ghost predicate DevsStoppedAt(r: Devs, cfg: IfaceCfg, ks: seq<nat>, i: int, mid: Devs, r': Devs, err: int)
    requires forall k | k in ks :: k in cfg
  {
    && 0 <= i < |ks| && WriteDevs(r, cfg, ks[..i]) == Ok(mid)
    && if FirstZero(mid.bits) == |mid.bits| then r' == mid && err == -EIO
       else PairsStopped(AddFront(mid, Empty(MAX_PAIRS)), ks[i], Texts(cfg[ks[i]]), r', err)
  }

  /** Writing the interfaces in `order` stopped at one of them; those after it are untouched. */
  ghost predicate ConfigStopped(m: Module, cfg: Config, order: seq<Kind>, m': Module, err: int)
    requires forall k | k in order :: k in cfg
  {
    exists i, mid, r' | 0 <= i < |order| :: ConfigStoppedAt(m, cfg, order, i, mid, r', m', err)
  }

  ghost predicate ConfigStoppedAt(m: Module, cfg: Config, order: seq<Kind>, i: int, mid: Module, r': Devs, m': Module, err: int)
    requires forall k | k in order :: k in cfg
  {
    && 0 <= i < |order| && WriteConfig(m, cfg, order[..i]) == Ok(mid) && m' == mid.Set(order[i], r')
    && DevsStopped(mid.Get(order[i]), cfg[order[i]], SortedKeys(cfg[order[i]].Keys), r', err)
  }

  // ---- Writing one thing after the other ----

  lemma {:induction false} PairsInTwo(r: Devs, j: nat, a: seq<string>, b: seq<string>)
    ensures WritePairs(r, j, a + b) == match WritePairs(r, j, a) case Err(e) => Err(e) case Ok(r') => WritePairs(r', j, b)
    decreases |a|
  {
    hide WriteText, Find, Update;
    if a == [] {
      assert a + b == b;
    } else {
      assert (a + b)[1..] == a[1..] + b;
      if Find(r.recs, j).Some? && WriteText(r.recs[Find(r.recs, j).value].item, a[0]).Ok? {
        var p := Find(r.recs, j).value;
        PairsInTwo(Update(r, p, WriteText(r.recs[p].item, a[0]).value), j, a[1..], b);
      }
    }
  }

  lemma PairsStep(r: Devs, j: nat, texts: seq<string>, i: nat, r': Devs)
    requires i < |texts| && WritePairs(r, j, texts[..i]) == Ok(r')
    ensures WritePairs(r, j, texts[..i + 1]) == WritePairs(r', j, [texts[i]])
    ensures WritePairs(r', j, [texts[i]]).Err? ==> WritePairs(r, j, texts) == WritePairs(r', j, [texts[i]])
  {
    hide WritePairs;
    assert texts[..i + 1] == texts[..i] + [texts[i]] && texts == texts[..i + 1] + texts[i + 1..];
    PairsInTwo(r, j, texts[..i], [texts[i]]);
    PairsInTwo(r, j, texts[..i + 1], texts[i + 1..]);
  }

  lemma {:induction false} DevsInTwo(r: Devs, cfg: IfaceCfg, a: seq<nat>, b: seq<nat>)
    requires (forall k | k in a :: k in cfg) && (forall k | k in b :: k in cfg)
    ensures WriteDevs(r, cfg, a + b) == match WriteDevs(r, cfg, a) case Err(e) => Err(e) case Ok(r') => WriteDevs(r', cfg, b)
    decreases |a|
  {
    hide WritePairs, FirstZero, Texts;
    if a == [] {
      assert a + b == b;
    } else {
      assert (a + b)[1..] == a[1..] + b;
      if FirstZero(r.bits) < |r.bits| && WritePairs(AddFront(r, Empty(MAX_PAIRS)), a[0], Texts(cfg[a[0]])).Ok? {
        DevsInTwo(WritePairs(AddFront(r, Empty(MAX_PAIRS)), a[0], Texts(cfg[a[0]])).value, cfg, a[1..], b);
      }
    }
  }

  lemma DevsStep(r: Devs, cfg: IfaceCfg, ks: seq<nat>, i: nat, r': Devs)
    requires (forall k | k in ks :: k in cfg) && i < |ks| && WriteDevs(r, cfg, ks[..i]) == Ok(r')
    ensures WriteDevs(r, cfg, ks[..i + 1]) == OneDevice(r', cfg, ks[i])
    ensures OneDevice(r', cfg, ks[i]).Err? ==> WriteDevs(r, cfg, ks) == OneDevice(r', cfg, ks[i])
  {
    hide WritePairs, FirstZero, Texts;
    assert ks[..i + 1] == ks[..i] + [ks[i]] && ks == ks[..i + 1] + ks[i + 1..];
    DevsInTwo(r, cfg, ks[..i], [ks[i]]);
    DevsInTwo(r, cfg, ks[..i + 1], ks[i + 1..]);
    assert [ks[i]][1..] == [];
  }

  /** Creating device `k` and writing its pairs. */
  ghost function OneDevice(r: Devs, cfg: IfaceCfg, k: nat): Result<Devs, int>
    requires k in cfg
  {
    if FirstZero(r.bits) == |r.bits| then Err(-EIO)
    else WritePairs(AddFront(r, Empty(MAX_PAIRS)), k, Texts(cfg[k]))
  }

  lemma {:induction false} ConfigInTwo(m: Module, cfg: Config, a: seq<Kind>, b: seq<Kind>)
    requires (forall k | k in a :: k in cfg) && (forall k | k in b :: k in cfg)
    ensures WriteConfig(m, cfg, a + b) == match WriteConfig(m, cfg, a) case Err(e) => Err(e) case Ok(m') => WriteConfig(m', cfg, b)
    decreases |a|
  {
    hide WriteIface, Module.Get, Module.Set;
    if a == [] {
      assert a + b == b;
    } else {
      assert (a + b)[1..] == a[1..] + b;
      var w := WriteIface(m.Get(a[0]), cfg[a[0]]);
      if w.Ok? {
        ConfigInTwo(m.Set(a[0], w.value), cfg, a[1..], b);
      }
    }
  }

  lemma ConfigStep(m: Module, cfg: Config, order: seq<Kind>, i: nat, m': Module)
    requires (forall k | k in order :: k in cfg) && i < |order| && WriteConfig(m, cfg, order[..i]) == Ok(m')
    ensures var w := WriteIface(m'.Get(order[i]), cfg[order[i]]);
      if w.Ok? then WriteConfig(m, cfg, order[..i + 1]) == Ok(m'.Set(order[i], w.value)) else WriteConfig(m, cfg, order) == Err(w.error)
  {
    hide WriteIface, Module.Get, Module.Set;
    assert order[..i + 1] == order[..i] + [order[i]] && order == order[..i + 1] + order[i + 1..];
    ConfigInTwo(m, cfg, order[..i], [order[i]]);
    ConfigInTwo(m, cfg, order[..i + 1], order[i + 1..]);
    assert [order[i]][1..] == [];
  }

  lemma WriteErrors(r: Pairs, text: string)
    ensures WriteText(r, text).Err? ==> WriteText(r, text).error < 0
  {
  }

  /** The file tree under /sys/kernel/hwemu, as the writer sees it. */
  class Sysfs {
    var ifaces: Module

    constructor ()
      ensures ifaces == EmptyModule()
    {
      ifaces := EmptyModule();
    }

    /** Writes '1' to `<iface>/add`. */
    method AddDevice(k: Kind) returns (err: int)
      modifies this
      ensures var r := old(ifaces).Get(k);
        if FirstZero(r.bits) == |r.bits| then err == -EIO && ifaces == old(ifaces)
        else err == 0 && ifaces == old(ifaces).Set(k, AddFront(r, Empty(MAX_PAIRS)))
    {
      var r := ifaces.Get(k);
      if FirstZero(r.bits) == |r.bits| {
        return -EIO;
      }
      ifaces := ifaces.Set(k, AddFront(r, Empty(MAX_PAIRS)));
      return 0;
    }

    /** Writes `text` to `<iface>/<dev j>/add`. */
    method AddPair(k: Kind, j: nat, text: string) returns (err: int)
      modifies this
      ensures err <= 0
      ensures match WritePairs(old(ifaces).Get(k), j, [text])
        case Err(e) => err == e < 0 && ifaces == old(ifaces)
        case Ok(r) => err == 0 && ifaces == old(ifaces).Set(k, r)
    {
      hide WriteText;
      var r := ifaces.Get(k);
      match Find(r.recs, j) {
        case None => return -ENOENT;
        case Some(p) =>
          WriteErrors(r.recs[p].item, text);
          match WriteText(r.recs[p].item, text) {
            case Err(e) => return e;
            case Ok(item) =>
              ifaces := ifaces.Set(k, Update(r, p, item));
              return 0;
          }
      }
    }

    /** The inner loop: the pairs of device `j`. */
    method WriteDevice(k: Kind, j: nat, d: DevCfg) returns (err: int)
      modifies this
      ensures err <= 0 && ifaces == old(ifaces).Set(k, ifaces.Get(k))
      ensures match WritePairs(old(ifaces).Get(k), j, Texts(d))
        case Ok(r) => err == 0 && ifaces.Get(k) == r
        case Err(e) => err == e < 0 && PairsStopped(old(ifaces).Get(k), j, Texts(d), ifaces.Get(k), err)
    {
      hide WritePairs, Texts, PairsStoppedAt;
      var texts := Texts(d);
      ghost var start := ifaces;
      NoPairs(ifaces.Get(k), j);
      for i := 0 to |texts|
        invariant WritePairs(start.Get(k), j, texts[..i]) == Ok(ifaces.Get(k))
        invariant ifaces == start.Set(k, ifaces.Get(k))
      {
        PairsStep(start.Get(k), j, texts, i, ifaces.Get(k));
        err := AddPair(k, j, texts[i]);
        if err < 0 {
          StoppedHere(start.Get(k), j, texts, i, ifaces.Get(k), err);
          return;
        }
      }
      assert texts[..|texts|] == texts;
      err := 0;
    }

    lemma StoppedHere(r: Devs, j: nat, texts: seq<string>, i: nat, r': Devs, err: int)
      requires i < |texts| && WritePairs(r, j, texts[..i]) == Ok(r') && WritePairs(r', j, [texts[i]]) == Err(err)
      ensures PairsStopped(r, j, texts, r', err)
    {
      hide WritePairs;
      assert PairsStoppedAt(r, j, texts, i, r', err);
    }

    lemma NoPairs(r: Devs, j: nat)
      ensures WritePairs(r, j, []) == Ok(r)
    {
    }

    /** The middle loop: the devices of interface `k`, in numeric order. */
    method WriteInterface(k: Kind, cfg: IfaceCfg) returns (err: int)
      modifies this
      ensures err <= 0 && ifaces == old(ifaces).Set(k, ifaces.Get(k))
      ensures match WriteIface(old(ifaces).Get(k), cfg)
        case Ok(r) => err == 0 && ifaces.Get(k) == r
        case Err(e) => err == e < 0 && DevsStopped(old(ifaces).Get(k), cfg, SortedKeys(cfg.Keys), ifaces.Get(k), err)
    {
      hide WriteDevs, WritePairs, SortedKeys, FirstZero, Texts, PairsStopped, DevsStoppedAt;
      var ks := SortedKeys(cfg.Keys);
      ghost var start := ifaces;
      NoDevices(ifaces.Get(k), cfg);
      for i := 0 to |ks|
        invariant WriteDevs(start.Get(k), cfg, ks[..i]) == Ok(ifaces.Get(k))
        invariant ifaces == start.Set(k, ifaces.Get(k))
      {
        ghost var mid := ifaces.Get(k);
        DevsStep(start.Get(k), cfg, ks, i, mid);
        err := AddDevice(k);
        if err < 0 {
          DevicesStoppedHere(start.Get(k), cfg, ks, i, mid, ifaces.Get(k), err);
          return;
        }
        err := WriteDevice(k, ks[i], cfg[ks[i]]);
        if err < 0 {
          DevicesStoppedHere(start.Get(k), cfg, ks, i, mid, ifaces.Get(k), err);
          return;
        }
      }
      assert ks[..|ks|] == ks;
      err := 0;
    }

    lemma DevicesStoppedHere(r: Devs, cfg: IfaceCfg, ks: seq<nat>, i: nat, mid: Devs, r': Devs, err: int)
      requires (forall k | k in ks :: k in cfg) && i < |ks| && WriteDevs(r, cfg, ks[..i]) == Ok(mid)
      requires if FirstZero(mid.bits) == |mid.bits| then r' == mid && err == -EIO
        else PairsStopped(AddFront(mid, Empty(MAX_PAIRS)), ks[i], Texts(cfg[ks[i]]), r', err)
      ensures DevsStopped(r, cfg, ks, r', err)
    {
      hide WriteDevs, PairsStopped, Texts, FirstZero;
      assert DevsStoppedAt(r, cfg, ks, i, mid, r', err);
    }

    /** `write_config`: succeeds exactly when the replay does, and leaves the module it describes; an
        error ends it where it happened. */
    method Write(cfg: Config, order: seq<Kind>) returns (err: int)
      requires forall k | k in order :: k in cfg
      modifies this
      ensures err <= 0
      ensures match WriteConfig(old(ifaces), cfg, order)
        case Ok(m) => err == 0 && ifaces == m
        case Err(e) => err == e < 0 && ConfigStopped(old(ifaces), cfg, order, ifaces, err)
    {
      hide WriteIface, Module.Get, Module.Set, DevsStopped, SortedKeys, ConfigStoppedAt;
      ghost var start := ifaces;
      for i := 0 to |order|
        invariant WriteConfig(start, cfg, order[..i]) == Ok(ifaces)
      {
        ghost var mid := ifaces;
        ConfigStep(start, cfg, order, i, mid);
        err := WriteInterface(order[i], cfg[order[i]]);
        if err < 0 {
          ConfigStoppedHere(start, cfg, order, i, mid, ifaces, err);
          return;
        }
      }
      assert order[..|order|] == order;
      err := 0;
    }

    lemma ConfigStoppedHere(m: Module, cfg: Config, order: seq<Kind>, i: nat, mid: Module, m': Module, err: int)
      requires (forall k | k in order :: k in cfg) && i < |order| && WriteConfig(m, cfg, order[..i]) == Ok(mid)
      requires var k := order[i]; m' == mid.Set(k, m'.Get(k)) && DevsStopped(mid.Get(k), cfg[k], SortedKeys(cfg[k].Keys), m'.Get(k), err)
      ensures ConfigStopped(m, cfg, order, m', err)
    {
      hide WriteConfig, DevsStopped, SortedKeys, Module.Get, Module.Set;
      assert ConfigStoppedAt(m, cfg, order, i, mid, m'.Get(order[i]), m', err);
    }
  }
}
