// Text forms of byte strings: hex, MAC addresses and UUIDs.

module Hex {
  import opened Base

  function Digit(n: int): char
    requires 0 <= n < 16
  {
    if n == 0 then '0' else if n == 1 then '1' else if n == 2 then '2' else if n == 3 then '3'
    else if n == 4 then '4' else if n == 5 then '5' else if n == 6 then '6' else if n == 7 then '7'
    else if n == 8 then '8' else if n == 9 then '9' else if n == 10 then 'a' else if n == 11 then 'b'
    else if n == 12 then 'c' else if n == 13 then 'd' else if n == 14 then 'e' else 'f'
  }

  /** The value of a hex digit of either case, as encoding/hex and the %x verb read it. */
  function Value(c: char): (v: Option<int>)
    ensures v.Some? ==> 0 <= v.value < 16
  {
    if '0' <= c <= '9' then Some(c as int - '0' as int)
    else if 'a' <= c <= 'f' then Some(c as int - 'a' as int + 10)
    else if 'A' <= c <= 'F' then Some(c as int - 'A' as int + 10)
    else None
  }

  lemma DigitValue(n: int)
    requires 0 <= n < 16
    ensures Value(Digit(n)) == Some(n)
    ensures Digit(n) != ':' && Digit(n) != '-'
  {
    assert n == 0 || n == 1 || n == 2 || n == 3 || n == 4 || n == 5 || n == 6 || n == 7
        || n == 8 || n == 9 || n == 10 || n == 11 || n == 12 || n == 13 || n == 14 || n == 15;
  }

  /** One byte as two hex digits, and back. */
  function High(b: byte): char { Digit(b / 16) }

  function Low(b: byte): char { Digit(b % 16) }

  function ByteOf(hi: char, lo: char): (b: Option<byte>)
  {
    match (Value(hi), Value(lo))
    case (Some(h), Some(l)) => Some(16 * h + l)
    case _ => None
  }

  lemma ByteRoundTrip(b: byte)
    ensures ByteOf(High(b), Low(b)) == Some(b)
  {
    DigitValue(b / 16);
    DigitValue(b % 16);
  }

  function Encode(bs: seq<byte>): (s: string)
    ensures |s| == 2 * |bs|
  {
    if bs == [] then "" else [High(bs[0]), Low(bs[0])] + Encode(bs[1..])
  }

  function Decode(s: string): (bs: Option<seq<byte>>)
    ensures bs.Some? ==> |s| == 2 * |bs.value|
  {
    if s == "" then Some([])
    else if |s| < 2 then None
    else
      match (ByteOf(s[0], s[1]), Decode(s[2..]))
      case (Some(b), Some(rest)) => Some([b] + rest)
      case _ => None
  }

  lemma {:induction false} RoundTrip(bs: seq<byte>)
    ensures Decode(Encode(bs)) == Some(bs)
  {
    hide ByteOf, High, Low;
    if bs == [] {
    } else {
      RoundTrip(bs[1..]);
      ByteRoundTrip(bs[0]);
      var s := Encode(bs);
      assert s[2..] == Encode(bs[1..]);
      assert bs == [bs[0]] + bs[1..];
    }
  }

  const DIGITS := "0123456789abcdef"

  /** Two lower-case digits a byte, the high half first. */
  lemma {:induction false} EncodeDigits(bs: seq<byte>, i: nat)
    requires i < |bs|
    ensures Encode(bs)[2 * i] == DIGITS[bs[i] / 16] && Encode(bs)[2 * i + 1] == DIGITS[bs[i] % 16]
  {
    hide High, Low;
    if i == 0 {
      ByteDigits(bs[0]);
    } else {
      EncodeDigits(bs[1..], i - 1);
      assert Encode(bs)[2..] == Encode(bs[1..]);
    }
  }

  lemma ByteDigits(b: byte)
    ensures High(b) == DIGITS[b / 16] && Low(b) == DIGITS[b % 16]
  {
    DigitShown(b / 16);
    DigitShown(b % 16);
  }

  lemma DigitShown(n: int)
    requires 0 <= n < 16
    ensures Digit(n) == DIGITS[n]
  {
    assert n == 0 || n == 1 || n == 2 || n == 3 || n == 4 || n == 5 || n == 6 || n == 7
        || n == 8 || n == 9 || n == 10 || n == 11 || n == 12 || n == 13 || n == 14 || n == 15;
  }

  lemma {:induction false} EncodeAppend(a: seq<byte>, b: seq<byte>)
    ensures Encode(a + b) == Encode(a) + Encode(b)
  {
    hide High, Low;
    if a == [] {
      assert a + b == b;
    } else {
      EncodeAppend(a[1..], b);
      assert (a + b)[1..] == a[1..] + b;
      ConcatAssociative([High(a[0]), Low(a[0])], Encode(a[1..]), Encode(b));
    }
  }
}

module MacText {
  import opened Base
  import Hex

  /** The "%02x:%02x:%02x:%02x:%02x:%02x" form. */
  function Colon(mac: Mac): (s: string)
    ensures |s| == 17
  {
    [Hex.High(mac[0]), Hex.Low(mac[0]), ':', Hex.High(mac[1]), Hex.Low(mac[1]), ':',
     Hex.High(mac[2]), Hex.Low(mac[2]), ':', Hex.High(mac[3]), Hex.Low(mac[3]), ':',
     Hex.High(mac[4]), Hex.Low(mac[4]), ':', Hex.High(mac[5]), Hex.Low(mac[5])]
  }

  /** mesh macToString: colon form for six bytes, bare hex for any other length. */
  function MacToString(mac: seq<byte>): string
  {
    if |mac| != 6 then Hex.Encode(mac) else Colon(mac)
  }

  function ParseColon(s: string): (mac: Option<Mac>)
    ensures mac.Some? ==> |s| == 17
  {
    if |s| == 17 && s[2] == s[5] == s[8] == s[11] == s[14] == ':' then
      match (Hex.ByteOf(s[0], s[1]), Hex.ByteOf(s[3], s[4]), Hex.ByteOf(s[6], s[7]),
             Hex.ByteOf(s[9], s[10]), Hex.ByteOf(s[12], s[13]), Hex.ByteOf(s[15], s[16]))
      case (Some(a), Some(b), Some(c), Some(d), Some(e), Some(f)) => Some([a, b, c, d, e, f])
      case _ => None
    else None
  }

  function ParseHex(s: string): (mac: Option<Mac>)
  {
    match Hex.Decode(s)
    case Some(b) => if |b| == 6 then Some(b) else None
    case None => None
  }

  /** mesh StringToMAC: bare hex first, then the colon form. */
  function StringToMAC(s: string): (mac: Option<Mac>)
  {
    match ParseHex(s)
    case Some(m) => Some(m)
    case None => ParseColon(s)
  }

  /** nodeauth ParseMAC: the colon form first, then bare hex. */
  function ParseMAC(s: string): (mac: Option<Mac>)
  {
    match ParseColon(s)
    case Some(m) => Some(m)
    case None => ParseHex(s)
  }

  /** Six pairs of digits with colons between them. */
  lemma ColonLayout(mac: Mac, i: nat)
    requires i < 6
    ensures Colon(mac)[3 * i] == Hex.DIGITS[mac[i] / 16] && Colon(mac)[3 * i + 1] == Hex.DIGITS[mac[i] % 16]
    ensures i < 5 ==> Colon(mac)[3 * i + 2] == ':'
  {
    hide Hex.High, Hex.Low;
    Hex.ByteDigits(mac[i]);
    assert i == 0 || i == 1 || i == 2 || i == 3 || i == 4 || i == 5;
  }

  lemma ColonRoundTrip(mac: Mac)
    ensures ParseColon(Colon(mac)) == Some(mac)
  {
    hide Hex.High, Hex.Low, Hex.ByteOf;
    Hex.ByteRoundTrip(mac[0]);
    Hex.ByteRoundTrip(mac[1]);
    Hex.ByteRoundTrip(mac[2]);
    Hex.ByteRoundTrip(mac[3]);
    Hex.ByteRoundTrip(mac[4]);
    Hex.ByteRoundTrip(mac[5]);
    assert mac == [mac[0], mac[1], mac[2], mac[3], mac[4], mac[5]];
  }

  lemma ColonInjective(a: Mac, b: Mac)
    ensures Colon(a) == Colon(b) <==> a == b
  {
    hide Colon, ParseColon;
    ColonRoundTrip(a);
    ColonRoundTrip(b);
  }

  /** Registry keys never collide, whatever the lengths of the two addresses. */
  lemma MacToStringInjective(a: seq<byte>, b: seq<byte>)
    requires MacToString(a) == MacToString(b)
    ensures a == b
  {
    hide Colon, ParseColon, Hex.Encode, Hex.Decode;
    if |a| == 6 && |b| == 6 {
      ColonRoundTrip(a);
      ColonRoundTrip(b);
    } else if |a| != 6 && |b| != 6 {
      Hex.RoundTrip(a);
      Hex.RoundTrip(b);
    } else {
      // Seventeen characters on one side, an even number on the other.
      assert false;
    }
  }

  /** Both parsers are inverse to both spellings of every six-byte address. */
  lemma ParsersInvert(mac: Mac)
    ensures ParseMAC(Colon(mac)) == Some(mac) && ParseMAC(Hex.Encode(mac)) == Some(mac)
    ensures StringToMAC(Colon(mac)) == Some(mac) && StringToMAC(Hex.Encode(mac)) == Some(mac)
  {
    hide Colon, ParseColon, Hex.Encode, Hex.Decode;
    ColonRoundTrip(mac);
    Hex.RoundTrip(mac);
    assert Hex.Decode(Colon(mac)).None?;
  }

  /** The two parsers try the forms in opposite orders yet agree on every string. */
  lemma ParsersAgree(s: string)
    ensures ParseMAC(s) == StringToMAC(s)
  {
    if ParseColon(s).Some? {
      assert |s| == 17;
      assert ParseHex(s).None?;
    }
  }

  /** nodeauth Approve and Reject: any spelling of a MAC becomes the registry's key; other text is kept. */
  function Normalize(s: string): string
  {
    match ParseMAC(s)
    case Some(m) => Colon(m)
    case None => s
  }

  lemma NormalizeSpellings(mac: Mac)
    ensures Normalize(Colon(mac)) == Colon(mac)
    ensures Normalize(Hex.Encode(mac)) == Colon(mac)
  {
    ParsersInvert(mac);
  }
}

/** The text form of section 4 of RFC 9562: 8-4-4-4-12 hex digits. */
module Uuid {
  import opened Base
  import Hex

  function Format(u: UuidBytes): (s: string)
    ensures |s| == 36
  {
    Hex.Encode(u[0..4]) + "-" + Hex.Encode(u[4..6]) + "-" + Hex.Encode(u[6..8]) + "-"
    + Hex.Encode(u[8..10]) + "-" + Hex.Encode(u[10..16])
  }

  /** Where the digits of byte `i` begin. */
  function Place(i: nat): nat
  {
    2 * i + (if i < 4 then 0 else if i < 6 then 1 else if i < 8 then 2 else if i < 10 then 3 else 4)
  }

  /** Two digits a byte in order, hyphens after the bytes 3, 5, 7 and 9. */
  lemma FormatLayout(u: UuidBytes, i: nat)
    requires i < 16
    ensures var s := Format(u); s[Place(i)] == Hex.DIGITS[u[i] / 16] && s[Place(i) + 1] == Hex.DIGITS[u[i] % 16]
    ensures Format(u)[8] == Format(u)[13] == Format(u)[18] == Format(u)[23] == '-'
  {
    hide Hex.Encode;
    if i < 4 {
      GroupDigits(u, 0, 4, i);
    } else if i < 6 {
      GroupDigits(u, 4, 6, i);
    } else if i < 8 {
      GroupDigits(u, 6, 8, i);
    } else if i < 10 {
      GroupDigits(u, 8, 10, i);
    } else {
      GroupDigits(u, 10, 16, i);
    }
  }

  lemma GroupDigits(u: UuidBytes, lo: nat, hi: nat, i: nat)
    requires lo <= i < hi <= 16
    ensures var s := Hex.Encode(u[lo..hi]);
      s[2 * (i - lo)] == Hex.DIGITS[u[i] / 16] && s[2 * (i - lo) + 1] == Hex.DIGITS[u[i] % 16]
  {
    Hex.EncodeDigits(u[lo..hi], i - lo);
  }

  function Parse(s: string): (u: Option<UuidBytes>)
  {
    if |s| == 36 && s[8] == '-' && s[13] == '-' && s[18] == '-' && s[23] == '-' then
      match Hex.Decode(s[0..8] + s[9..13] + s[14..18] + s[19..23] + s[24..36])
      case Some(b) => Some(b)
      case None => None
    else None
  }

  lemma RoundTrip(u: UuidBytes)
    ensures Parse(Format(u)) == Some(u)
  {
    var s := Format(u);
    hide Hex.Encode, Hex.Decode;
    assert s[0..8] == Hex.Encode(u[0..4]);
    assert s[9..13] == Hex.Encode(u[4..6]);
    assert s[14..18] == Hex.Encode(u[6..8]);
    assert s[19..23] == Hex.Encode(u[8..10]);
    assert s[24..36] == Hex.Encode(u[10..16]);
    Hex.EncodeAppend(u[0..4], u[4..6]);
    Hex.EncodeAppend(u[0..4] + u[4..6], u[6..8]);
    Hex.EncodeAppend(u[0..4] + u[4..6] + u[6..8], u[8..10]);
    Hex.EncodeAppend(u[0..4] + u[4..6] + u[6..8] + u[8..10], u[10..16]);
    assert u == u[0..4] + u[4..6] + u[6..8] + u[8..10] + u[10..16];
    Hex.RoundTrip(u);
  }

  lemma FormatInjective(a: UuidBytes, b: UuidBytes)
    requires Format(a) == Format(b)
    ensures a == b
  {
    RoundTrip(a);
    RoundTrip(b);
  }
}
