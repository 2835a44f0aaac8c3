/** URL encoding (sections 2.1 and 2.3 of RFC 3986) and query strings (Sylar/util.cc and
    Sylar/HttpServer/http.cc). */
module Url {
  import opened Prelude

  const SPACE: byte := 32
  const PERCENT: byte := 37
  const AMPERSAND: byte := 38
  const PLUS: byte := 43
  const EQUALS: byte := 61

  predicate IsDigit(b: byte) {
    48 <= b <= 57
  }

  predicate IsUpper(b: byte) {
    65 <= b <= 90
  }

  predicate IsLower(b: byte) {
    97 <= b <= 122
  }

  /** The table of characters that are left as they are. Beside the unreserved characters of
      section 2.3 it holds the equals sign. */
  predicate Unreserved(b: byte) {
    IsDigit(b) || IsUpper(b) || IsLower(b) || b in {45, 46, 95, 126} || b == EQUALS
  }

  function HexDigit(n: nat): byte
    requires n < 16
  {
    if n < 10 then 48 + n else 55 + n
  }

  predicate IsHex(b: byte) {
    IsDigit(b) || 65 <= b <= 70 || 97 <= b <= 102
  }

  function HexValue(b: byte): (n: nat)
    requires IsHex(b)
    ensures n < 16
  {
    if IsDigit(b) then b - 48 else if b <= 70 then b - 55 else b - 87
  }

  // ---------------------------------------------------------------- encoding

  function EncodeByte(b: byte, plus: bool): seq<byte> {
    if Unreserved(b) then [b]
    else if b == SPACE && plus then [PLUS]
    else [PERCENT, HexDigit(b / 16), HexDigit(b % 16)]
  }

  function Encode(s: seq<byte>, plus: bool): seq<byte> {
    if s == [] then [] else EncodeByte(s[0], plus) + Encode(s[1..], plus)
  }

  lemma {:induction false} EncodeStep(str: seq<byte>, c: nat, plus: bool, sofar: seq<byte>, piece: seq<byte>)
    requires c < |str| && piece == EncodeByte(str[c], plus)
    ensures sofar + Encode(str[c..], plus) == (sofar + piece) + Encode(str[c + 1..], plus)
  {
    assert str[c..][1..] == str[c + 1..];
    Regroup(sofar, piece, Encode(str[c + 1..], plus));
  }

  /** The lazily made buffer, or what it would hold. */
  function Buffer(ss: Option<seq<byte>>, str: seq<byte>, c: nat): seq<byte>
    requires c <= |str|
  {
    if ss.Some? then ss.value else str[..c]
  }

  /** `UrlEncode`: the buffer is only made when a character has to be escaped. */
  method UrlEncode(str: seq<byte>, plus: bool) returns (r: seq<byte>)
    ensures r == Encode(str, plus)
  {
    ghost var all := Encode(str, plus);
    var ss: Option<seq<byte>> := None;
    var c := 0;
    assert str[0..] == str;
    while c < |str|
      invariant 0 <= c <= |str|
      invariant Buffer(ss, str, c) + Encode(str[c..], plus) == all
    {
      ghost var before := Buffer(ss, str, c);
      EncodeStep(str, c, plus, before, EncodeByte(str[c], plus));
      ss := EncodeInto(ss, str, c, plus);
      c := c + 1;
    }
    r := if ss.Some? then ss.value else str;
  }

  /** One turn of that loop. */
  method EncodeInto(ss: Option<seq<byte>>, str: seq<byte>, c: nat, plus: bool) returns (ss': Option<seq<byte>>)
    requires c < |str|
    ensures Buffer(ss', str, c + 1) == Buffer(ss, str, c) + EncodeByte(str[c], plus)
  {
    var b := str[c];
    ss' := ss;
    if !Unreserved(b) {
      if ss'.None? {
        ss' := Some(str[..c]);
      }
      if b == SPACE && plus {
        ss' := Some(ss'.value + [PLUS]);
      } else {
        ss' := Some(ss'.value + [PERCENT] + [HexDigit(b / 16)] + [HexDigit(b % 16)]);
      }
    } else if ss'.Some? {
      ss' := Some(ss'.value + [b]);
    }
  }

  /** What becomes of one character: letters, digits and five others stay, a space can become a
      plus sign, and all else is escaped in upper-case digits. */
  lemma {:induction false} EncodedByte(b: byte, plus: bool)
    ensures Encode([b], plus) ==
      if 'A' as int <= b <= 'Z' as int || 'a' as int <= b <= 'z' as int || '0' as int <= b <= '9' as int
      then [b]
      else if b in {'-' as int, '.' as int, '_' as int, '~' as int, '=' as int} then [b]
      else if b == ' ' as int && plus then ['+' as int]
      else ['%' as int, "0123456789ABCDEF"[b / 16] as int, "0123456789ABCDEF"[b % 16] as int]
  {
    assert [b][1..] == [];
    assert Encode([b], plus) == EncodeByte(b, plus);
    UpperDigit(b / 16);
    UpperDigit(b % 16);
  }

  lemma UpperDigit(n: nat)
    requires n < 16
    ensures HexDigit(n) == "0123456789ABCDEF"[n] as int
  {
    var digits := "0123456789ABCDEF";
    assert digits[10] == 'A' && digits[11] == 'B' && digits[12] == 'C';
    assert digits[13] == 'D' && digits[14] == 'E' && digits[15] == 'F';
  }

  /** The characters are encoded one by one. */
  lemma {:induction false} EncodeConcat(s: seq<byte>, t: seq<byte>, plus: bool)
    ensures Encode(s + t, plus) == Encode(s, plus) + Encode(t, plus)
  {
    if s == [] {
      assert s + t == t;
    } else {
      EncodeConcat(s[1..], t, plus);
      HeadAndTail(s, t);
      Regroup(EncodeByte(s[0], plus), Encode(s[1..], plus), Encode(t, plus));
    }
  }

  /** A character that an encoding may hold. */
  predicate Safe(b: byte, plus: bool) {
    || 'A' as int <= b <= 'Z' as int || 'a' as int <= b <= 'z' as int || '0' as int <= b <= '9' as int
    || b in {'-' as int, '.' as int, '_' as int, '~' as int, '=' as int, '%' as int}
    || (plus && b == '+' as int)
  }

  lemma {:induction false} EncodedIsSafe(s: seq<byte>, plus: bool)
    ensures forall i :: 0 <= i < |Encode(s, plus)| ==> Safe(Encode(s, plus)[i], plus)
  {
    if s != [] {
      EncodedIsSafe(s[1..], plus);
      assert forall i :: 0 <= i < |EncodeByte(s[0], plus)| ==> Safe(EncodeByte(s[0], plus)[i], plus);
    }
  }

  // ---------------------------------------------------------------- decoding

  predicate Escape(s: seq<byte>) {
    |s| >= 3 && s[0] == PERCENT && IsHex(s[1]) && IsHex(s[2])
  }

  function Decode(s: seq<byte>, plus: bool): seq<byte> {
    if s == [] then []
    else if s[0] == PLUS && plus then [SPACE] + Decode(s[1..], plus)
    else if Escape(s) then [16 * HexValue(s[1]) + HexValue(s[2])] + Decode(s[3..], plus)
    else [s[0]] + Decode(s[1..], plus)
  }

  /** How many characters the first one of `s` takes, and what they stand for. */
  function Taken(s: seq<byte>, plus: bool): nat
    requires s != []
  {
    if !(s[0] == PLUS && plus) && Escape(s) then 3 else 1
  }

  function Meaning(s: seq<byte>, plus: bool): byte
    requires s != []
  {
    if s[0] == PLUS && plus then SPACE else if Escape(s) then 16 * HexValue(s[1]) + HexValue(s[2]) else s[0]
  }

  lemma {:induction false} DecodeStep(str: seq<byte>, c: nat, plus: bool, sofar: seq<byte>)
    requires c < |str|
    ensures c + Taken(str[c..], plus) <= |str|
    ensures sofar + Decode(str[c..], plus) ==
      (sofar + [Meaning(str[c..], plus)]) + Decode(str[c + Taken(str[c..], plus)..], plus)
  {
    var s := str[c..];
    assert s[1..] == str[c + 1..];
    assert Escape(s) ==> s[3..] == str[c + 3..];
    Regroup(sofar, [Meaning(s, plus)], Decode(s[Taken(s, plus)..], plus));
  }

  /** `UrlDecode`. */
  method UrlDecode(str: seq<byte>, plus: bool) returns (r: seq<byte>)
    ensures r == Decode(str, plus)
  {
    ghost var all := Decode(str, plus);
    var ss: Option<seq<byte>> := None;
    var c := 0;
    assert str[0..] == str;
    while c < |str|
      invariant 0 <= c <= |str|
      invariant Buffer(ss, str, c) + Decode(str[c..], plus) == all
    {
      DecodeStep(str, c, plus, Buffer(ss, str, c));
      ss, c := DecodeInto(ss, str, c, plus);
    }
    r := if ss.Some? then ss.value else str;
  }

  /** One turn of that loop. */
  method DecodeInto(ss: Option<seq<byte>>, str: seq<byte>, c: nat, plus: bool) returns (ss': Option<seq<byte>>, c': nat)
    requires c < |str|
    ensures c' == c + Taken(str[c..], plus) <= |str|
    ensures Buffer(ss', str, c') == Buffer(ss, str, c) + [Meaning(str[c..], plus)]
  {
    ss', c' := ss, c;
    if str[c] == PLUS && plus {
      if ss'.None? {
        ss' := Some(str[..c]);
      }
      ss' := Some(ss'.value + [SPACE]);
    } else if str[c] == PERCENT && c + 2 < |str| && IsHex(str[c + 1]) && IsHex(str[c + 2]) {
      if ss'.None? {
        ss' := Some(str[..c]);
      }
      ss' := Some(ss'.value + [16 * HexValue(str[c + 1]) + HexValue(str[c + 2])]);
      c' := c' + 2;
    } else if ss'.Some? {
      ss' := Some(ss'.value + [str[c]]);
    }
    c' := c' + 1;
  }

  /** What the character `b` is a hexadecimal digit for, in upper or lower case. */
  predicate IsDigitFor(b: byte, n: nat) {
    n < 16 && (b == "0123456789ABCDEF"[n] as int || b == "0123456789abcdef"[n] as int)
  }

  lemma {:induction false} HexDigits(b: byte)
    ensures forall n :: IsDigitFor(b, n) <==> IsHex(b) && n == HexValue(b)
  {
    forall n: nat | n < 16
      ensures IsDigitFor(b, n) <==> IsHex(b) && n == HexValue(b)
    {
      UpperDigit(n);
      LowerDigit(n);
    }
  }

  lemma LowerDigit(n: nat)
    requires n < 16
    ensures "0123456789abcdef"[n] as int == if n < 10 then 48 + n else 87 + n
  {
    var digits := "0123456789abcdef";
    assert digits[10] == 'a' && digits[11] == 'b' && digits[12] == 'c';
    assert digits[13] == 'd' && digits[14] == 'e' && digits[15] == 'f';
  }

  /** A percent sign with two digits after it, in either case, is the byte that they spell. */
  lemma {:induction false} EscapesAreRead(x: byte, y: byte, m: nat, n: nat, rest: seq<byte>, plus: bool)
    requires IsDigitFor(x, m) && IsDigitFor(y, n)
    ensures Decode(['%' as int, x, y] + rest, plus) == [16 * m + n] + Decode(rest, plus)
  {
    HexDigits(x);
    HexDigits(y);
    var s := ['%' as int, x, y] + rest;
    assert s[0] == PERCENT && s[1] == x && s[2] == y && s[3..] == rest;
    assert Escape(s);
  }

  /** Anything else stays, a percent sign without its digits too, but for the plus sign. */
  lemma {:induction false} OthersAreKept(b: byte, rest: seq<byte>, plus: bool)
    requires b == '%' as int ==>
      |rest| < 2 || (forall m :: !IsDigitFor(rest[0], m)) || (forall n :: !IsDigitFor(rest[1], n))
    ensures Decode([b] + rest, plus) ==
      [if b == '+' as int && plus then ' ' as int else b] + Decode(rest, plus)
  {
    var s := [b] + rest;
    assert s[0] == b && s[1..] == rest;
    if |rest| >= 2 {
      HexDigits(rest[0]);
      HexDigits(rest[1]);
      assert s[1] == rest[0] && s[2] == rest[1];
      assert IsHex(rest[0]) ==> IsDigitFor(rest[0], HexValue(rest[0]));
      assert IsHex(rest[1]) ==> IsDigitFor(rest[1], HexValue(rest[1]));
    }
  }

  // ---------------------------------------------------------------- round trip

  lemma HexRoundTrip(n: nat)
    requires n < 16
    ensures IsHex(HexDigit(n)) && HexValue(HexDigit(n)) == n
  {
  }

  /** What a receiver in mode `q` makes of a character that was sent in mode `p`. */
  function Delivered(b: byte, p: bool, q: bool): byte {
    if b == SPACE && p && !q then PLUS else b
  }

  lemma {:induction false} DecodeOne(b: byte, rest: seq<byte>, p: bool, q: bool)
    ensures Decode(EncodeByte(b, p) + rest, q) == [Delivered(b, p, q)] + Decode(rest, q)
  {
    var s := EncodeByte(b, p) + rest;
    if Unreserved(b) {
      assert s[0] == b && s[1..] == rest;
    } else if b == SPACE && p {
      assert s[0] == PLUS && s[1..] == rest;
    } else {
      HexRoundTrip(b / 16);
      HexRoundTrip(b % 16);
      assert s[0] == PERCENT && s[1] == HexDigit(b / 16) && s[2] == HexDigit(b % 16) && s[3..] == rest;
      assert Escape(s);
    }
  }

  function DeliveredAll(s: seq<byte>, p: bool, q: bool): (r: seq<byte>)
    ensures |r| == |s| && forall i :: 0 <= i < |s| ==> r[i] == Delivered(s[i], p, q)
  {
    seq(|s|, i requires 0 <= i < |s| => Delivered(s[i], p, q))
  }

  lemma {:induction false} DecodeEncoded(s: seq<byte>, p: bool, q: bool)
    ensures Decode(Encode(s, p), q) == DeliveredAll(s, p, q)
  {
    if s != [] {
      DecodeOne(s[0], Encode(s[1..], p), p, q);
      DecodeEncoded(s[1..], p, q);
      assert DeliveredAll(s, p, q) == [Delivered(s[0], p, q)] + DeliveredAll(s[1..], p, q);
    }
  }

  /** Decoding inverts encoding for every byte string, unless spaces were sent as plus signs
      and are not read as such. */
  lemma {:induction false} UrlRoundTripExactly(s: seq<byte>, p: bool, q: bool)
    ensures Decode(Encode(s, p), q) == s <==> !p || q || SPACE !in s
  {
    DecodeEncoded(s, p, q);
    if SPACE in s {
      var i :| 0 <= i < |s| && s[i] == SPACE;
      assert DeliveredAll(s, p, q)[i] == Delivered(SPACE, p, q);
    } else {
      assert DeliveredAll(s, p, q) == s;
    }
  }
}
