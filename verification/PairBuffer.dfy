/** `struct hwe_pair` with its fixed buffers, and the parser and printer that fill and read them. */
module PairBuffer {
  import opened Base
  import opened Hex
  import opened PairCodec
  import TimeText
  import TimePrint

  class HwePair {
    const req: array<byte>
    var reqSize: nat
    const resp: array<byte>
    var respSize: nat
    var asyncRx: bool
    var periodMs: nat

    /** The buffers of a pair just allocated; its other fields may hold anything. */
    ghost predicate Allocated() {
      req != resp && req.Length == MAX_REQUEST && resp.Length == MAX_RESPONSE
    }

    ghost predicate Valid()
      reads this
    {
      Allocated() && reqSize <= MAX_REQUEST && respSize <= MAX_RESPONSE
    }

    /** The pair without its response, as the first half of the parser leaves it. */
    ghost function Request(): Pair
      reads this, req
      requires Allocated() && reqSize <= MAX_REQUEST
    {
      Pair(req[..reqSize], [], asyncRx, if asyncRx then periodMs else 0)
    }

    /** What the fields mean; the period of a pair that is not asynchronous is never read. */
    ghost function Value(): Pair
      reads this, req, resp
      requires Valid()
    {
      Pair(req[..reqSize], resp[..respSize], asyncRx, if asyncRx then periodMs else 0)
    }

    constructor ()
      ensures Allocated() && fresh(req) && fresh(resp)
    {
      req := new byte[MAX_REQUEST];
      resp := new byte[MAX_RESPONSE];
    }
  }

  /** The tail of `str_to_pair`, from the character after the '='. */
  method ParseResponseInto(str: string, from: nat, pair: HwePair) returns (err: Option<string>)
    requires pair.Allocated() && pair.reqSize <= MAX_REQUEST && from <= |str|
    modifies pair`respSize, pair.resp
    ensures match ParseResponse(str[from..], old(pair.Request()))
      case Ok(p) => err == None && pair.Valid() && pair.Value() == p
      case Err(e) => err == Some(e)
  {
    hide FindChar, Decode, AllHex, Filled;
    var sz := |str| - from;
    assert str[from..from + sz] == str[from..];
    var e := Strnchr(str, from, sz, '\n');
    if e.Some? {
      sz := e.value - from;
    }
    assert str[from..][..sz] == str[from..from + sz];
    if sz == 0 {
      return Some("empty response");
    }
    if sz > MAX_RESPONSE * 2 {
      return Some("response string too long");
    }
    if sz % 2 == 1 {
      return Some("odd number of characters in response string");
    }
    var bad := Hex2bin(pair.resp, str, from, sz / 2);
    assert from + 2 * (sz / 2) == from + sz;
    if bad != 0 {
      return Some("invalid character in response string");
    }
    pair.respSize := sz / 2;
    return None;
  }

  /** A request of digits, in the `sz` characters before the '='. */
  method RequestInto(str: string, sz: nat, pair: HwePair) returns (err: Option<string>)
    requires pair.Allocated() && sz < |str| && AllHex(str[..sz])
    modifies pair, pair.req
    ensures sz > MAX_REQUEST * 2 ==> err == Some("request string too long")
    ensures sz <= MAX_REQUEST * 2 && sz % 2 == 1 ==> err == Some("odd number of characters in request string")
    ensures sz <= MAX_REQUEST * 2 && sz % 2 == 0 ==>
      err == None && pair.Allocated() && pair.reqSize == sz / 2 && pair.Request() == Pair(Decode(str[..sz]), [], false, 0)
  {
    hide Decode, AllHex, Filled;
    if sz > MAX_REQUEST * 2 {
      return Some("request string too long");
    }
    if sz % 2 == 1 {
      return Some("odd number of characters in request string");
    }
    assert str[0..0 + 2 * (sz / 2)] == str[..sz];
    var bad := Hex2bin(pair.req, str, 0, sz / 2);
    if bad != 0 {
      return Some("invalid character in request string");
    }
    pair.reqSize := sz / 2;
    pair.asyncRx := false;
    return None;
  }

  /** `str_to_pair(str, |str|, pair)`. */
  method StrToPairInto(str: string, pair: HwePair) returns (err: Option<string>)
    requires pair.Allocated()
    modifies pair, pair.req, pair.resp
    ensures match StrToPair(str)
      case Ok(p) => err == None && pair.Valid() && pair.Value() == p
      case Err(e) => err == Some(e)
  {
    hide FindChar, Decode, AllHex, Filled, At, ParseResponse, TimeText.ScanFrom;
    if |str| == 0 {
      return Some("empty string");
    }
    assert str[0..|str|] == str;
    var e := Strnchr(str, 0, |str|, '=');
    if e.None? {
      return Some("missing '='");
    }
    var sz := e.value;
    if sz == 0 {
      return Some("empty request");
    }
    var hex := IsHexStr(str, sz);
    if hex {
      err := RequestInto(str, sz, pair);
      if err.Some? {
        return;
      }
    } else {
      var s := 0;
      if |TIMER| <= |str| && str[..|TIMER|] == TIMER {
        s := |TIMER|;
      }
      var t, end := TimeText.HweStrToTime(str, s);
      if t == 0 || At(str, end) != '=' {
        return Some("invalid data definition");
      }
      pair.reqSize := 0;
      pair.asyncRx := true;
      pair.periodMs := t;
    }
    err := ParseResponseInto(str, sz + 1, pair);
  }

  /** The first half of `pair_to_str`: the request, or "timer:" and the period. */
  method KeyInto(pair: HwePair, buf: array<char>) returns (end: nat)
    requires pair.Valid() && buf.Length == MAX_PAIR_STR + 1
    requires pair.asyncRx ==> pair.periodMs <= UINT_MAX
    modifies buf
    ensures end <= 2 * MAX_REQUEST && buf[..end] == KeyText(pair.Value())
  {
    hide Encode, TimePrint.Print;
    if pair.asyncRx {
      forall i | 0 <= i < |TIMER| {
        buf[i] := TIMER[i];
      }
      TimePrint.PrintLength(pair.periodMs);
      end := TimePrint.HweTimeToStr(buf, |TIMER|, pair.periodMs);
    } else {
      end := Bin2hex(buf, 0, pair.req, pair.reqSize);
      assert buf[..end] == buf[0..end];
    }
  }

  /** `pair_to_str(pair)` into its buffer of HWE_MAX_PAIR_STR + 1 characters: an error text, or the
      length of the NUL-terminated text in the buffer. */
  method PairToStrInto(pair: HwePair, buf: array<char>) returns (err: Option<string>, end: nat)
    requires pair.Valid() && buf.Length == MAX_PAIR_STR + 1
    requires pair.asyncRx ==> pair.periodMs <= UINT_MAX
    modifies buf
    ensures err.Some? ==> err.value == PairToStr(pair.Value()) && err.value in {BAD_REQUEST, BAD_RESPONSE}
    ensures err.None? ==> end < buf.Length && buf[..end] == PairToStr(pair.Value()) && buf[end] == '\0'
  {
    hide Encode, KeyText;
    ghost var p := pair.Value();
    end := 0;
    if !pair.asyncRx && (pair.reqSize < 1 || pair.reqSize > MAX_REQUEST) {
      return Some(BAD_REQUEST), 0;
    }
    if pair.respSize < 1 || pair.respSize > MAX_RESPONSE {
      return Some(BAD_RESPONSE), 0;
    }
    end := KeyInto(pair, buf);
    buf[end] := '=';
    end := end + 1;
    ghost var at := end;
    assert buf[..at] == KeyText(p) + "=";
    end := Bin2hex(buf, end, pair.resp, pair.respSize);
    assert buf[..end] == buf[..at] + buf[at..end];
    buf[end] := '\0';
    err := None;
  }
}
