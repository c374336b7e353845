/** The hexadecimal primitives and the bounded character search of tests/kernel_utils.c. */
module Hex {
  import opened Base

  /** The character at `n` in `hex_asc`. */
  function HexAsc(n: nat): char
    requires n < 16
  {
    if n < 10 then ('0' as int + n) as char else ('a' as int + n - 10) as char
  }

  function ToLower(c: char): char {
    if 'A' <= c <= 'Z' then ((c as int) + 32) as char else c
  }

  /** `isxdigit` over ASCII. */
  predicate IsHex(c: char) {
    '0' <= c <= '9' || 'a' <= c <= 'f' || 'A' <= c <= 'F'
  }

  predicate AllHex(s: string) {
    forall i | 0 <= i < |s| :: IsHex(s[i])
  }

  function HexToBin(ch: char): (r: int)
    ensures -1 <= r < 16
    ensures r >= 0 <==> IsHex(ch)
    ensures r >= 0 ==> HexAsc(r) == ToLower(ch)
  {
    if '0' <= ch <= '9' then ch as int - '0' as int
    else
      var c := ToLower(ch);
      if 'a' <= c <= 'f' then c as int - 'a' as int + 10 else -1
  }

  /** The bytes a string of hexadecimal digit pairs stands for. */
  function Decode(s: string): (b: seq<byte>)
    requires |s| % 2 == 0 && AllHex(s)
    ensures |b| == |s| / 2
  {
    seq(|s| / 2, i requires 0 <= i < |s| / 2 => (16 * HexToBin(s[2 * i]) + HexToBin(s[2 * i + 1])) as byte)
  }

  /** The lowercase digits `bin2hex` prints for `b`. */
  function Encode(b: seq<byte>): (s: string)
    ensures |s| == 2 * |b|
    ensures AllHex(s)
  {
    seq(2 * |b|, i requires 0 <= i < 2 * |b| =>
      if i % 2 == 0 then HexAsc(b[i / 2] / 16) else HexAsc(b[i / 2] % 16))
  }

  function Lowercase(s: string): string {
    seq(|s|, i requires 0 <= i < |s| => ToLower(s[i]))
  }

  lemma HexAscValue(n: nat)
    requires n < 16
    ensures HexToBin(HexAsc(n)) == n
  {
  }

  lemma EncodeAt(b: seq<byte>, i: nat)
    requires i < |b|
    ensures Encode(b)[2 * i] == HexAsc(b[i] / 16) && Encode(b)[2 * i + 1] == HexAsc(b[i] % 16)
  {
    assert (2 * i) / 2 == i && (2 * i + 1) / 2 == i;
  }

  /** Decoding undoes encoding, for all byte strings. */
  lemma DecodeEncode(b: seq<byte>)
    ensures Decode(Encode(b)) == b
  {
    forall i | 0 <= i < |b|
      ensures Decode(Encode(b))[i] == b[i]
    {
      EncodeAt(b, i);
      HexAscValue(b[i] / 16);
      HexAscValue(b[i] % 16);
    }
  }

  /** The two halves of a decoded byte are the values of its two digits. */
  lemma DecodeHalves(s: string, j: nat)
    requires |s| % 2 == 0 && AllHex(s)
    requires 2 * j < |s|
    ensures Decode(s)[j] / 16 == HexToBin(s[2 * j]) && Decode(s)[j] % 16 == HexToBin(s[2 * j + 1])
  {
    hide HexToBin;
  }

  lemma EncodeDecodePair(s: string, j: nat)
    requires |s| % 2 == 0 && AllHex(s)
    requires 2 * j < |s|
    ensures Encode(Decode(s))[2 * j] == ToLower(s[2 * j])
    ensures Encode(Decode(s))[2 * j + 1] == ToLower(s[2 * j + 1])
  {
    hide HexToBin, Decode, Encode, HexAsc, ToLower;
    EncodeAt(Decode(s), j);
    DecodeHalves(s, j);
  }

  /** Encoding undoes decoding up to letter case: the canonical text is the lowercase one. */
  lemma EncodeDecode(s: string)
    requires |s| % 2 == 0 && AllHex(s)
    ensures Encode(Decode(s)) == Lowercase(s)
  {
    hide HexToBin, Decode, Encode, HexAsc, ToLower;
    forall i | 0 <= i < |s|
      ensures Encode(Decode(s))[i] == Lowercase(s)[i]
    {
      EncodeDecodePair(s, i / 2);
    }
  }

  /** `is_hex_str`: the digit test over the first `size` characters. */
  method IsHexStr(str: string, size: nat) returns (ok: bool)
    requires size <= |str|
    ensures ok <==> AllHex(str[..size])
  {
    for i := 0 to size
      invariant AllHex(str[..i])
    {
      if !IsHex(str[i]) {
        assert str[..size][i] == str[i];
        return false;
      }
    }
    return true;
  }

  /** How many pairs of `text`, the first `i` included, are digits up to the first that is not. */
  function GoodPairs(text: string, i: nat): (g: nat)
    requires 2 * i <= |text| && AllHex(text[..2 * i])
    ensures i <= g <= |text| / 2 && AllHex(text[..2 * g])
    ensures g < |text| / 2 ==> !(IsHex(text[2 * g]) && IsHex(text[2 * g + 1]))
    decreases |text| - 2 * i
  {
    if 2 * i + 1 < |text| && IsHex(text[2 * i]) && IsHex(text[2 * i + 1]) then GoodPairs(text, i + 1) else i
  }

  lemma DecodeNone(text: string)
    ensures AllHex(text[..0]) && Decode(text[..0]) == []
  {
  }

  lemma DecodeSnoc(s: string, a: char, b: char)
    requires |s| % 2 == 0 && AllHex(s) && IsHex(a) && IsHex(b)
    ensures AllHex(s + [a, b])
    ensures Decode(s + [a, b]) == Decode(s) + [16 * HexToBin(a) + HexToBin(b)]
  {
    hide HexToBin, IsHex;
  }

  /** One more pair of digits is one more byte; a pair that is none ends the good ones. */
  lemma NextPair(text: string, i: nat)
    requires 2 * i + 1 < |text| && AllHex(text[..2 * i])
    ensures IsHex(text[2 * i]) && IsHex(text[2 * i + 1]) ==>
      && AllHex(text[..2 * (i + 1)]) && GoodPairs(text, i) == GoodPairs(text, i + 1)
      && Decode(text[..2 * (i + 1)]) == Decode(text[..2 * i]) + [16 * HexToBin(text[2 * i]) + HexToBin(text[2 * i + 1])]
    ensures !(IsHex(text[2 * i]) && IsHex(text[2 * i + 1])) ==> GoodPairs(text, i) == i && !AllHex(text)
  {
    hide HexToBin, IsHex, Decode;
    if IsHex(text[2 * i]) && IsHex(text[2 * i + 1]) {
      DecodeSnoc(text[..2 * i], text[2 * i], text[2 * i + 1]);
      assert text[..2 * (i + 1)] == text[..2 * i] + [text[2 * i], text[2 * i + 1]];
    }
  }

  /** The buffer `after` holds the good pairs of `text` decoded, and is otherwise the buffer `before`. */
  ghost predicate Filled(text: string, before: seq<byte>, after: seq<byte>) {
    GoodPairs(text, 0) <= |before| && after == Decode(text[..2 * GoodPairs(text, 0)]) + before[GoodPairs(text, 0)..]
  }

  /** `hex2bin(dst, src + at, count)`: decodes pair after pair into `dst` and returns 0, or stops at
      the first bad one; nothing else of `dst` changes. */
  method Hex2bin(dst: array<byte>, src: string, at: nat, count: nat) returns (err: int)
    requires count <= dst.Length
    requires at + 2 * count <= |src|
    modifies dst
    ensures err == 0 <==> AllHex(src[at..at + 2 * count])
    ensures err != 0 ==> err == -EINVAL
    ensures Filled(src[at..at + 2 * count], old(dst[..]), dst[..])
    ensures err == 0 ==> dst[..count] == Decode(src[at..at + 2 * count])
  {
    hide Decode, HexToBin, GoodPairs, IsHex, AllHex;
    ghost var text := src[at..at + 2 * count];
    DecodeNone(text);
    ghost var g := GoodPairs(text, 0);
    for i := 0 to count
      invariant AllHex(text[..2 * i]) && g == GoodPairs(text, i)
      invariant dst[..i] == Decode(text[..2 * i])
      invariant forall j | i <= j < dst.Length :: dst[j] == old(dst[j])
    {
      assert text[2 * i] == src[at + 2 * i] && text[2 * i + 1] == src[at + 2 * i + 1];
      var hi := HexToBin(src[at + 2 * i]);
      var lo := HexToBin(src[at + 2 * i + 1]);
      NextPair(text, i);
      if hi < 0 || lo < 0 {
        assert dst[..] == dst[..i] + old(dst[..])[i..];
        return -EINVAL;
      }
      ghost var done := dst[..i];
      dst[i] := 16 * hi + lo;
      assert dst[..i + 1] == done + [dst[i]];
    }
    assert text[..2 * count] == text;
    assert dst[..] == dst[..count] + old(dst[..])[count..];
    return 0;
  }

  /** `bin2hex(dst + at, src, count)`: returns the position after the last digit written. */
  method Bin2hex(dst: array<char>, at: nat, src: array<byte>, count: nat) returns (end: nat)
    requires count <= src.Length
    requires at + 2 * count <= dst.Length
    modifies dst
    ensures end == at + 2 * count
    ensures dst[at..end] == Encode(src[..count])
    ensures dst[..at] == old(dst[..at]) && dst[end..] == old(dst[end..])
  {
    end := at;
    for i := 0 to count
      invariant end == at + 2 * i
      invariant dst[at..end] == Encode(src[..i])
      invariant dst[..at] == old(dst[..at])
      invariant dst[at + 2 * count..] == old(dst[at + 2 * count..])
    {
      dst[end] := HexAsc(src[i] / 16);
      dst[end + 1] := HexAsc(src[i] % 16);
      end := end + 2;
      EncodeSnoc(src[..i], src[i]);
      assert src[..i + 1] == src[..i] + [src[i]];
      assert dst[at..end] == dst[at..end - 2] + [dst[end - 2], dst[end - 1]];
    }
  }

  lemma EncodeSnoc(b: seq<byte>, x: byte)
    ensures Encode(b + [x]) == Encode(b) + [HexAsc(x / 16), HexAsc(x % 16)]
  {
  }

  /** `s` reaches `c` at `i` before any terminator: what `strnchr` reports. */
  ghost predicate FoundAt(s: string, c: char, i: nat) {
    i < |s| && s[i] == c && forall j | 0 <= j < i :: s[j] != c && s[j] != '\0'
  }

  function FindChar(s: string, c: char): (r: Option<nat>)
    ensures r.Some? ==> FoundAt(s, c, r.value)
    ensures r.None? ==> forall i :: !FoundAt(s, c, i)
  {
    if s == "" then None
    else if s[0] == c then Some(0)
    else if s[0] == '\0' then None
    else
      assert s == [s[0]] + s[1..];
      assert forall i | 0 < i && FoundAt(s, c, i) :: FoundAt(s[1..], c, i - 1);
      match FindChar(s[1..], c)
      case None => None
      case Some(i) => Some(i + 1)
  }

  /** `strnchr(s + at, count, c)`. */
  method Strnchr(s: string, at: nat, count: nat, c: char) returns (r: Option<nat>)
    requires at + count <= |s|
    ensures r == match FindChar(s[at..at + count], c) { case None => None case Some(i) => Some(at + i) }
  {
    ghost var text := s[at..at + count];
    for i := 0 to count
      invariant forall j | 0 <= j < i :: text[j] != c && text[j] != '\0'
    {
      if s[at + i] == c {
        assert FoundAt(text, c, i);
        return Some(at + i);
      }
      if s[at + i] == '\0' {
        assert text[i] == '\0';
        return None;
      }
    }
    return None;
  }
}
