/** The request-response pair text of kernel/hwe_utils.c: parser, printer, and the grammar they share. */
module PairCodec {
  import opened Base
  import opened Hex
  import Decimal
  import TimeText
  import TimeGrammar
  import TimePrint

  /** What a pair means: a request with its response, or a response delivered every `periodMs`. */
  datatype Pair = Pair(req: seq<byte>, resp: seq<byte>, asyncRx: bool, periodMs: nat)

  predicate WellFormed(p: Pair) {
    && 1 <= |p.resp| <= MAX_RESPONSE
    && (if p.asyncRx then p.req == [] && 1 <= p.periodMs <= UINT_MAX
        else 1 <= |p.req| <= MAX_REQUEST && p.periodMs == 0)
  }

  const TIMER := "timer:"

  // ---- The parser ----

  /** The response part of `str_to_pair`: the text after the '=', up to a newline if there is one. */
  function ParseResponse(rest: string, p: Pair): Result<Pair, string> {
    var sz := match FindChar(rest, '\n') { case None => |rest| case Some(i) => i };
    if sz == 0 then Err("empty response")
    else if sz > MAX_RESPONSE * 2 then Err("response string too long")
    else if sz % 2 == 1 then Err("odd number of characters in response string")
    else if !AllHex(rest[..sz]) then Err("invalid character in response string")
    else Ok(p.(resp := Decode(rest[..sz])))
  }

  /** The request part for a key that is not a hexadecimal string: a time, with or without "timer:". */
  function ParseTime(str: string): Option<nat> {
    var at := if TIMER <= str then |TIMER| else 0;
    var r := TimeText.ScanFrom(str, at, 0, 0, at);
    if r.time == 0 || At(str, r.end) != '=' then None else Some(r.time)
  }

  /** `str_to_pair(str, |str|, pair)`: the pair it fills in, or the error text it returns. */
  function StrToPair(str: string): Result<Pair, string> {
    if str == "" then Err("empty string")
    else match FindChar(str, '=')
      case None => Err("missing '='")
      case Some(sz) =>
        if sz == 0 then Err("empty request")
        else if AllHex(str[..sz]) then
          if sz > MAX_REQUEST * 2 then Err("request string too long")
          else if sz % 2 == 1 then Err("odd number of characters in request string")
          else ParseResponse(str[sz + 1..], Pair(Decode(str[..sz]), [], false, 0))
        else match ParseTime(str)
          case None => Err("invalid data definition")
          case Some(t) => ParseResponse(str[sz + 1..], Pair([], [], true, t))
  }

  // ---- The grammar ----

  predicate HexText(s: string, max: nat) {
    s != "" && |s| % 2 == 0 && |s| <= 2 * max && AllHex(s)
  }

  /** The key `k` stands for the request or the period of `p`. */
  ghost predicate KeyDenotes(k: string, p: Pair) {
    if p.asyncRx then
      p.req == [] && exists w :: TimeGrammar.Denotes(w, p.periodMs) && (k == w || k == TIMER + w)
    else
      HexText(k, MAX_REQUEST) && p.req == Decode(k) && p.periodMs == 0
  }

  /** The line `k=v`, followed by nothing or by a newline and anything, stands for the pair `p`. */
  ghost predicate Line(str: string, k: string, v: string, tail: string, p: Pair) {
    && str == k + "=" + v + tail
    && (tail == "" || tail[0] == '\n')
    && KeyDenotes(k, p)
    && HexText(v, MAX_RESPONSE) && p.resp == Decode(v)
  }

  ghost predicate Denotes(str: string, p: Pair) {
    exists k, v, tail :: Line(str, k, v, tail, p)
  }

  lemma FoundIsFirst(s: string, c: char, i: nat)
    requires FoundAt(s, c, i)
    ensures FindChar(s, c) == Some(i)
  {
    hide FindChar;
    var r := FindChar(s, c);
    assert r.Some?;
    assert r.value <= i && i <= r.value;
  }

  /** The response part accepts exactly hexadecimal texts of allowed size, up to the newline. */
  lemma ResponseAccepted(rest: string, v: string, tail: string, p: Pair)
    requires rest == v + tail && (tail == "" || tail[0] == '\n') && HexText(v, MAX_RESPONSE)
    ensures ParseResponse(rest, p) == Ok(p.(resp := Decode(v)))
  {
    hide FindChar, Decode;
    assert forall j | 0 <= j < |v| :: rest[j] == v[j] && IsHex(v[j]);
    if tail != "" {
      assert FoundAt(rest, '\n', |v|);
      FoundIsFirst(rest, '\n', |v|);
    } else {
      assert forall i: nat :: !FoundAt(rest, '\n', i);
    }
    assert rest[..|v|] == v;
  }

  lemma ResponseSound(rest: string, p: Pair, q: Pair) returns (v: string, tail: string)
    requires ParseResponse(rest, p) == Ok(q)
    ensures rest == v + tail && (tail == "" || tail[0] == '\n') && HexText(v, MAX_RESPONSE)
    ensures q == p.(resp := Decode(v))
  {
    hide FindChar, Decode;
    var sz := match FindChar(rest, '\n') { case None => |rest| case Some(i) => i };
    v, tail := rest[..sz], rest[sz..];
  }

  /** A time text starts with a digit, has a letter that is no hexadecimal digit, and no '=' or NUL. */
  lemma TimeTextShape(w: string, t: nat)
    requires TimeGrammar.Denotes(w, t)
    ensures w != "" && Decimal.IsDigit(w[0]) && !AllHex(w)
    ensures forall i | 0 <= i < |w| :: w[i] != '=' && w[i] != '\0'
  {
    hide TimeGrammar.Text, TimeGrammar.Sum, TimeGrammar.InLimits;
    var ds :| TimeGrammar.DenotesBy(w, t, ds);
    TimeGrammar.NoEquals(ds, 0);
    TimeGrammar.NotEmpty(ds);
    TimeGrammar.TextStart(ds, 0);
    assert w[0..|w|] == w;
    var u, e, n := TimeGrammar.Split(w, 0, ds, 0, |w|);
    assert w[e..n] == TimeText.Unit(u);
    assert !IsHex(w[e..n][0]);
    assert w[e] == w[e..n][0];
  }

  /** `ParseTime` on a line whose key ends at its first '='. */
  lemma TimeAccepted(str: string, sz: nat, w: string, t: nat)
    requires FoundAt(str, '=', sz) && TimeGrammar.Denotes(w, t)
    requires str[..sz] == w || str[..sz] == TIMER + w
    ensures ParseTime(str) == Some(t) && !AllHex(str[..sz])
  {
    hide TimeText.ScanFrom, TimeGrammar.Denotes;
    TimeTextShape(w, t);
    if str[..sz] == w {
      assert str[0] == w[0];
      assert str[0..sz] == w;
      TimeGrammar.ScanIffDenotes(str, 0, sz, t);
    } else {
      var k := TIMER + w;
      assert str[..6] == k[..6] == TIMER;
      assert str[6..sz] == k[6..] == w;
      assert str[..sz][0] == 't';
      TimeGrammar.ScanIffDenotes(str, 6, sz, t);
    }
  }

  lemma TimeSound(str: string, sz: nat, t: nat) returns (w: string)
    requires FoundAt(str, '=', sz) && ParseTime(str) == Some(t)
    ensures TimeGrammar.Denotes(w, t) && (str[..sz] == w || str[..sz] == TIMER + w)
  {
    hide TimeText.ScanFrom, TimeGrammar.Denotes;
    var at := if TIMER <= str then |TIMER| else 0;
    if TIMER <= str {
      assert forall j | 0 <= j < 6 :: str[j] == TIMER[j];
      assert sz >= 6;
      assert str[..sz] == str[..6] + str[6..sz];
    }
    w := str[at..sz];
    TimeGrammar.ScanIffDenotes(str, at, sz, t);
    assert str[0..sz] == str[..sz];
  }

  lemma KeyFound(str: string, k: string, rest: string)
    requires str == k + "=" + rest && forall i | 0 <= i < |k| :: k[i] != '=' && k[i] != '\0'
    ensures FoundAt(str, '=', |k|) && FindChar(str, '=') == Some(|k|)
    ensures str[..|k|] == k && str[|k| + 1..] == rest
  {
    hide FindChar;
    assert forall j | 0 <= j < |k| :: str[j] == k[j];
    FoundIsFirst(str, '=', |k|);
  }

  /** Every line of the grammar is accepted, with the pair it stands for. */
  lemma LineAccepted(str: string, k: string, v: string, tail: string, p: Pair)
    requires Line(str, k, v, tail, p)
    ensures StrToPair(str) == Ok(p)
  {
    hide FindChar, Decode, ParseResponse, ParseTime, TimeGrammar.Denotes;
    assert str == k + "=" + (v + tail);
    if p.asyncRx {
      var w :| TimeGrammar.Denotes(w, p.periodMs) && (k == w || k == TIMER + w);
      TimeTextShape(w, p.periodMs);
      assert forall i | 0 <= i < |k| :: k[i] != '=' && k[i] != '\0';
      KeyFound(str, k, v + tail);
      TimeAccepted(str, |k|, w, p.periodMs);
      ResponseAccepted(v + tail, v, tail, Pair([], [], true, p.periodMs));
    } else {
      assert forall i | 0 <= i < |k| :: IsHex(k[i]);
      KeyFound(str, k, v + tail);
      ResponseAccepted(v + tail, v, tail, Pair(Decode(k), [], false, 0));
    }
  }

  /** Every accepted text is a line of the grammar. */
  lemma AcceptedIsLine(str: string, p: Pair) returns (k: string, v: string, tail: string)
    requires StrToPair(str) == Ok(p)
    ensures Line(str, k, v, tail, p)
  {
    hide FindChar, Decode, ParseResponse, ParseTime, TimeGrammar.Denotes;
    var sz := FindChar(str, '=').value;
    k := str[..sz];
    var rest := str[sz + 1..];
    if AllHex(k) {
      v, tail := ResponseSound(rest, Pair(Decode(k), [], false, 0), p);
    } else {
      var t := ParseTime(str).value;
      var w := TimeSound(str, sz, t);
      v, tail := ResponseSound(rest, Pair([], [], true, t), p);
    }
    assert str == k + "=" + rest;
    assert str == k + "=" + v + tail;
  }

  /** The pointer scanner decides exactly the grammar, with exactly its meaning. */
  lemma ParserIsGrammar(str: string, p: Pair)
    ensures StrToPair(str) == Ok(p) <==> Denotes(str, p)
  {
    hide StrToPair, Line;
    if StrToPair(str) == Ok(p) {
      var k, v, tail := AcceptedIsLine(str, p);
    }
    if Denotes(str, p) {
      var k, v, tail :| Line(str, k, v, tail, p);
      LineAccepted(str, k, v, tail, p);
    }
  }

  // ---- What a refusal says ----

  /** `v` is what stands in `rest` before its first newline. */
  ghost predicate IsValue(rest: string, v: string) {
    v <= rest && (FoundAt(rest, '\n', |v|) || (v == rest && forall i :: !FoundAt(rest, '\n', i)))
  }

  ghost predicate KeyReason(k: string, e: string) {
    match e
    case "empty request" => k == ""
    case "request string too long" => AllHex(k) && |k| > 2 * MAX_REQUEST
    case "odd number of characters in request string" => AllHex(k) && |k| % 2 == 1
    case "invalid data definition" => !AllHex(k) && forall p :: !KeyDenotes(k, p)
    case _ => false
  }

  ghost predicate ValueReason(v: string, e: string) {
    match e
    case "empty response" => v == ""
    case "response string too long" => |v| > 2 * MAX_RESPONSE
    case "odd number of characters in response string" => |v| % 2 == 1
    case "invalid character in response string" => !AllHex(v)
    case _ => false
  }

  /** The error `e` is a true statement about the text `str`: about the whole, about its key, or, when
      the key is fine, about its value. */
  ghost predicate Reason(str: string, e: string) {
    match e
    case "empty string" => str == ""
    case "missing '='" => str != "" && forall i :: !FoundAt(str, '=', i)
    case _ => exists sz, v :: ReasonAt(str, sz, v, e)
  }

  ghost predicate ReasonAt(str: string, sz: nat, v: string, e: string) {
    && FoundAt(str, '=', sz) && IsValue(str[sz + 1..], v)
    && (KeyReason(str[..sz], e) || ((exists p :: KeyDenotes(str[..sz], p)) && ValueReason(v, e)))
  }

  lemma ValueOf(rest: string) returns (v: string)
    ensures IsValue(rest, v)
    ensures v == match FindChar(rest, '\n') case None => rest case Some(i) => rest[..i]
  {
    hide FindChar;
    v := match FindChar(rest, '\n') case None => rest case Some(i) => rest[..i];
  }

  lemma ResponseRefused(rest: string, p: Pair, v: string, e: string)
    requires v == match FindChar(rest, '\n') case None => rest case Some(i) => rest[..i]
    requires ParseResponse(rest, p) == Err(e)
    ensures ValueReason(v, e)
  {
    hide FindChar, Decode, AllHex;
    assert rest[..|rest|] == rest;
  }

  lemma NoTime(str: string, sz: nat)
    requires FoundAt(str, '=', sz) && !AllHex(str[..sz]) && ParseTime(str) == None
    ensures forall p :: !KeyDenotes(str[..sz], p)
  {
    hide Decode, AllHex, ParseTime, TimeGrammar.Denotes;
    var k := str[..sz];
    forall p: Pair | p.asyncRx
      ensures !KeyDenotes(k, p)
    {
      forall w | TimeGrammar.Denotes(w, p.periodMs)
        ensures !(k == w || k == TIMER + w)
      {
        if k == w || k == TIMER + w {
          TimeAccepted(str, sz, w, p.periodMs);
        }
      }
    }
  }

  /** Every refusal gives a true reason. */
  lemma RefusalsSayWhy(str: string, e: string)
    requires StrToPair(str) == Err(e)
    ensures Reason(str, e)
  {
    hide FindChar, Decode, ParseResponse, ParseTime, KeyDenotes, KeyReason, ValueReason, AllHex, IsValue;
    if str != "" && FindChar(str, '=').Some? {
      var sz := FindChar(str, '=').value;
      var k, rest := str[..sz], str[sz + 1..];
      var v := ValueOf(rest);
      RefusedAt(str, sz, v, e);
      assert ReasonAt(str, sz, v, e);
    }
  }

  lemma RefusedAt(str: string, sz: nat, v: string, e: string)
    requires FindChar(str, '=') == Some(sz) && IsValue(str[sz + 1..], v)
    requires v == match FindChar(str[sz + 1..], '\n') case None => str[sz + 1..] case Some(i) => str[sz + 1..][..i]
    requires StrToPair(str) == Err(e)
    ensures ReasonAt(str, sz, v, e)
    ensures e != "empty string" && e != "missing '='"
  {
    hide FindChar, Decode, ParseResponse, ParseTime, AllHex, IsValue, TimeGrammar.Denotes;
    var k, rest := str[..sz], str[sz + 1..];
    if AllHex(k) && sz != 0 && sz <= MAX_REQUEST * 2 && sz % 2 == 0 {
      var p := Pair(Decode(k), [], false, 0);
      assert KeyDenotes(k, p);
      ResponseRefused(rest, p, v, e);
    } else if sz != 0 && !AllHex(k) {
      match ParseTime(str)
      case None => NoTime(str, sz);
      case Some(t) =>
        var w := TimeSound(str, sz, t);
        assert KeyDenotes(k, Pair([], [], true, t));
        ResponseRefused(rest, Pair([], [], true, t), v, e);
    }
  }

  // ---- Keys, seen from the whole line ----

  lemma KeyHasNoEquals(k: string, p: Pair)
    requires KeyDenotes(k, p)
    ensures forall i | 0 <= i < |k| :: k[i] != '='
  {
    hide Decode, TimeGrammar.Denotes;
    if p.asyncRx {
      var w :| TimeGrammar.Denotes(w, p.periodMs) && (k == w || k == TIMER + w);
      TimeTextShape(w, p.periodMs);
    }
  }

  /** A line splits in one way at the '=' that ends its key and before the newline that ends its value. */
  lemma SameSplit(k: string, v: string, k': string, v': string, tail: string, p: Pair)
    requires (forall i | 0 <= i < |k| :: k[i] != '=') && (forall i | 0 <= i < |v| :: v[i] != '\n')
    requires Line(k + "=" + v, k', v', tail, p)
    ensures k' == k && v' == v && tail == ""
  {
    hide Decode;
    var s := k + "=" + v;
    KeyHasNoEquals(k', p);
    assert s[|k|] == '=' && s[|k'|] == '=';
    assert forall i | 0 <= i < |k| :: s[i] == k[i];
    assert forall i | 0 <= i < |k'| :: s[i] == k'[i];
    assert |k'| == |k|;
    assert k' == s[..|k|] == k;
    assert v == s[|k| + 1..] == v' + tail;
    assert forall i | 0 <= i < |tail| :: tail[i] == v[|v'| + i];
  }

  /** A line of key and value is accepted exactly when both are: the key stands for request or
      period, the value for the response. */
  lemma PlainLine(k: string, v: string, p: Pair)
    requires (forall i | 0 <= i < |k| :: k[i] != '=') && (forall i | 0 <= i < |v| :: v[i] != '\n')
    ensures StrToPair(k + "=" + v) == Ok(p) <==> KeyDenotes(k, p) && HexText(v, MAX_RESPONSE) && p.resp == Decode(v)
  {
    hide StrToPair, KeyDenotes, Decode;
    if StrToPair(k + "=" + v) == Ok(p) {
      var k', v', tail := AcceptedIsLine(k + "=" + v, p);
      SameSplit(k, v, k', v', tail, p);
    }
    if KeyDenotes(k, p) && HexText(v, MAX_RESPONSE) && p.resp == Decode(v) {
      assert k + "=" + v + "" == k + "=" + v;
      LineAccepted(k + "=" + v, k, v, "", p);
    }
  }

  /** `str_to_pair` and `check_async_key` agree on timer lines: with numbers that fit 64 bits, a time
      makes a pair of that period exactly when the script finds that many milliseconds in its key. */
  lemma TimerLinesAgree(w: string, v: string, t: nat)
    requires TimeGrammar.RunsFit(w) && (forall i | 0 <= i < |w| :: w[i] != '=') && HexText(v, MAX_RESPONSE)
    ensures StrToPair(TIMER + w + "=" + v) == Ok(Pair([], Decode(v), true, t)) <==> TimeGrammar.CheckAsyncKey(w, t)
  {
    hide StrToPair, Decode, TimeGrammar.Denotes, TimeGrammar.CheckAsyncKey, TimeGrammar.RunsFit;
    var k, p := TIMER + w, Pair([], Decode(v), true, t);
    assert forall i | 0 <= i < |v| :: IsHex(v[i]);
    PlainLine(k, v, p);
    TimeGrammar.TimeLanguagesAgree(w, t);
    TimerKey(w, t);
  }

  /** Behind "timer:" there is only the time. */
  lemma TimerKey(w: string, t: nat)
    ensures (exists x :: TimeGrammar.Denotes(x, t) && (TIMER + w == x || TIMER + w == TIMER + x)) <==> TimeGrammar.Denotes(w, t)
  {
    hide TimeGrammar.Denotes;
    if x :| TimeGrammar.Denotes(x, t) && (TIMER + w == x || TIMER + w == TIMER + x) {
      TimeTextShape(x, t);
      assert (TIMER + w)[0] == 't';
      assert w == (TIMER + w)[|TIMER|..] && x == (TIMER + x)[|TIMER|..];
    }
  }

  // ---- The printer ----

  const BAD_REQUEST := "error: request size out of valid range"
  const BAD_RESPONSE := "error: response size out of valid range"

  /** The text of the key of `p`. */
  function KeyText(p: Pair): string {
    if p.asyncRx then TIMER + TimePrint.Print(p.periodMs) else Encode(p.req)
  }

  /** `pair_to_str`. */
  function PairToStr(p: Pair): string {
    if !p.asyncRx && (|p.req| < 1 || |p.req| > MAX_REQUEST) then BAD_REQUEST
    else if |p.resp| < 1 || |p.resp| > MAX_RESPONSE then BAD_RESPONSE
    else KeyText(p) + "=" + Encode(p.resp)
  }

  lemma KeyTextDenotes(p: Pair)
    requires WellFormed(p)
    ensures KeyDenotes(KeyText(p), p)
  {
    hide Encode, Decode, TimeGrammar.Denotes, TimePrint.Print;
    if p.asyncRx {
      TimePrint.PrintDenotes(p.periodMs);
      assert TimeGrammar.Denotes(TimePrint.Print(p.periodMs), p.periodMs);
    } else {
      DecodeEncode(p.req);
    }
  }

  /** Parser undoes printer: for every well-formed pair, its text, followed by nothing or by a
      newline and anything, parses back to the same pair. */
  lemma RoundTrip(p: Pair, tail: string)
    requires WellFormed(p)
    requires tail == "" || tail[0] == '\n'
    ensures StrToPair(PairToStr(p) + tail) == Ok(p)
  {
    hide Encode, Decode, StrToPair, KeyDenotes, KeyText;
    KeyTextDenotes(p);
    DecodeEncode(p.resp);
    LineAccepted(PairToStr(p) + tail, KeyText(p), Encode(p.resp), tail, p);
  }

  /** Every accepted text yields a well-formed pair. */
  lemma AcceptedWellFormed(str: string, p: Pair)
    requires StrToPair(str) == Ok(p)
    ensures WellFormed(p)
  {
    hide StrToPair, Decode, TimeGrammar.DenotesBy;
    var k, v, tail := AcceptedIsLine(str, p);
    if p.asyncRx {
      var w :| TimeGrammar.Denotes(w, p.periodMs) && (k == w || k == TIMER + w);
      TimeInRange(w, p.periodMs);
    }
  }

  lemma TimeInRange(w: string, t: nat)
    requires TimeGrammar.Denotes(w, t)
    ensures 1 <= t <= UINT_MAX
  {
  }

  lemma PrintedFits(p: Pair)
    requires WellFormed(p)
    ensures |PairToStr(p)| <= MAX_PAIR_STR
  {
    hide Encode, TimePrint.Print;
    if p.asyncRx {
      TimePrint.PrintLength(p.periodMs);
    }
  }

  /** What is printed for a timer pair: "timer:", a time the check of the scripts reads as the period of
      the pair, '=', and digits for the response. */
  lemma TimerPrints(p: Pair) returns (w: string, v: string)
    requires WellFormed(p) && p.asyncRx
    ensures PairToStr(p) == TIMER + w + "=" + v && TimeGrammar.CheckAsyncKey(w, p.periodMs)
    ensures HexText(v, MAX_RESPONSE) && Decode(v) == p.resp && Lowercase(v) == v
  {
    hide Encode, Decode, Lowercase, TimePrint.Print, TimeGrammar.CheckAsyncKey;
    w, v := TimePrint.Print(p.periodMs), Encode(p.resp);
    TimePrint.PrintChecks(p.periodMs);
    DecodeEncode(p.resp);
    EncodeDecode(v);
  }

  /** What is printed for a request-response pair: lowercase digits for both, with '=' in between. */
  lemma RequestPrints(p: Pair) returns (k: string, v: string)
    requires WellFormed(p) && !p.asyncRx
    ensures PairToStr(p) == k + "=" + v
    ensures HexText(k, MAX_REQUEST) && Decode(k) == p.req && Lowercase(k) == k
    ensures HexText(v, MAX_RESPONSE) && Decode(v) == p.resp && Lowercase(v) == v
  {
    hide Encode, Decode, Lowercase;
    k, v := Encode(p.req), Encode(p.resp);
    DecodeEncode(p.req);
    EncodeDecode(k);
    DecodeEncode(p.resp);
    EncodeDecode(v);
  }

  /** Canonical form: an accepted text denotes a pair whose printed text fits the buffer and
      parses to the same pair. */
  lemma Canonical(str: string, p: Pair)
    requires StrToPair(str) == Ok(p)
    ensures WellFormed(p)
    ensures |PairToStr(p)| <= MAX_PAIR_STR
    ensures StrToPair(PairToStr(p)) == Ok(p)
  {
    hide StrToPair, PairToStr, WellFormed;
    AcceptedWellFormed(str, p);
    PrintedFits(p);
    RoundTrip(p, "");
    assert PairToStr(p) + "" == PairToStr(p);
  }

  /** Two accepted texts print alike exactly when they mean the same. */
  lemma PrintsAlike(s1: string, p1: Pair, s2: string, p2: Pair)
    requires StrToPair(s1) == Ok(p1) && StrToPair(s2) == Ok(p2)
    ensures PairToStr(p1) == PairToStr(p2) <==> p1 == p2
  {
    hide StrToPair, PairToStr, WellFormed;
    Canonical(s1, p1);
    Canonical(s2, p2);
  }

  /** The canonical text of a request-response line is that line in lowercase, without its tail. */
  lemma CanonicalIsLowercase(str: string, k: string, v: string, tail: string, p: Pair)
    requires Line(str, k, v, tail, p) && !p.asyncRx
    ensures PairToStr(p) == Lowercase(k) + "=" + Lowercase(v)
  {
    hide Decode, Encode, Lowercase;
    LineAccepted(str, k, v, tail, p);
    AcceptedWellFormed(str, p);
    EncodeDecode(k);
    EncodeDecode(v);
  }
}
