/**
 * Decoding of a raw HCI LE Advertising Report event carrying a Tilt iBeacon
 * (`brewblox_tilt/blescan.py`): the event is defined in section 7.7.65.2 of the
 * Bluetooth Core Specification, Vol 4, Part E.
 */
module Blescan {
  import opened Wrappers

  /** One octet of a packet. */
  type byte = b: int | 0 <= b < 256

  const HciEventPkt: byte := 0x04
  const LeMetaEvent: byte := 0x3E
  const LeAdvertisingReport: byte := 0x02
  const TiltParamLength: byte := 42
  /** Header bytes plus parameters. */
  const TiltEventLength: nat := 45
  /** The first four bytes of every Tilt event. */
  const TiltHeader: seq<byte> := [HciEventPkt, LeMetaEvent, TiltParamLength, LeAdvertisingReport]

  datatype TiltEventData = TiltEventData(mac: string, uuid: string, major: int, minor: int, txpower: int, rssi: int)

  predicate IsLowerHexChar(c: char) {
    '0' <= c <= '9' || 'a' <= c <= 'f'
  }

  function HexDigit(d: nat): (c: char)
    requires d < 16
    ensures IsLowerHexChar(c)
  {
    if d < 10 then (48 + d) as char else (87 + d) as char
  }

  function HexValue(c: char): (d: nat)
    requires IsLowerHexChar(c)
    ensures d < 16 && HexDigit(d) == c
  {
    if c <= '9' then c as int - 48 else c as int - 87
  }

  /** The two lower-case hexadecimal digits of one byte. */
  function HexByte(b: byte): (s: string)
    ensures |s| == 2 && IsLowerHexChar(s[0]) && IsLowerHexChar(s[1])
  {
    [HexDigit(b / 16), HexDigit(b % 16)]
  }

  /** `bytes.hex(pkt)`: two lower-case hexadecimal digits per byte. */
  function Hex(pkt: seq<byte>): (s: string)
    ensures |s| == 2 * |pkt|
  {
    if pkt == [] then "" else HexByte(pkt[0]) + Hex(pkt[1..])
  }

  predicate IsHexText(s: string) {
    |s| % 2 == 0 && forall i :: 0 <= i < |s| ==> IsLowerHexChar(s[i])
  }

  /** The inverse of `Hex`: reads pairs of lower-case hexadecimal digits back into bytes. */
  function Unhex(s: string): (r: seq<byte>)
    requires IsHexText(s)
    ensures |r| == |s| / 2
  {
    if s == [] then [] else [HexValue(s[0]) * 16 + HexValue(s[1])] + Unhex(s[2..])
  }

  /** The hex text of any bytes consists of lower-case hexadecimal digits only. */
  lemma {:induction false} HexText(pkt: seq<byte>)
    ensures IsHexText(Hex(pkt))
  {
    if pkt != [] {
      var s := Hex(pkt);
      HexText(pkt[1..]);
      assert s[2..] == Hex(pkt[1..]);
      forall i | 2 <= i < |s|
        ensures IsLowerHexChar(s[i])
      {
        assert s[i] == s[2..][i - 2];
      }
    }
  }

  lemma {:induction false} UnhexHex(pkt: seq<byte>)
    ensures IsHexText(Hex(pkt)) && Unhex(Hex(pkt)) == pkt
  {
    HexText(pkt);
    if pkt != [] {
      var b := pkt[0];
      assert Hex(pkt)[2..] == Hex(pkt[1..]);
      UnhexHex(pkt[1..]);
    }
  }

  lemma {:induction false} HexUnhex(s: string)
    requires IsHexText(s)
    ensures Hex(Unhex(s)) == s
  {
    if s != [] {
      var b: byte := HexValue(s[0]) * 16 + HexValue(s[1]);
      assert b / 16 == HexValue(s[0]) && b % 16 == HexValue(s[1]);
      assert Unhex(s)[1..] == Unhex(s[2..]);
      HexUnhex(s[2..]);
      assert s == s[..2] + s[2..];
    }
  }

  lemma {:induction false} HexAt(pkt: seq<byte>, k: nat)
    requires k < |pkt|
    ensures Hex(pkt)[2 * k..2 * k + 2] == HexByte(pkt[k])
  {
    if k > 0 {
      HexAt(pkt[1..], k - 1);
      assert Hex(pkt)[2..] == Hex(pkt[1..]);
    }
  }

  /** `s[i:i+2] for i in range(0, len(s), 2)`: the string cut into pieces of two characters. */
  function Chunks(s: string): seq<string>
    decreases |s|
  {
    if |s| <= 2 then (if s == [] then [] else [s]) else [s[..2]] + Chunks(s[2..])
  }

  /** `sep.join(parts)`. */
  function Join(sep: string, parts: seq<string>): string {
    if parts == [] then "" else if |parts| == 1 then parts[0] else parts[0] + sep + Join(sep, parts[1..])
  }

  /** `b2string(pkt, sep)`: the hexadecimal text of `pkt`, its byte pairs joined by `sep` when one is given. */
  function B2String(pkt: seq<byte>, sep: Option<string>): string {
    match sep
    case None => Hex(pkt)
    case Some(sp) => Join(sp, Chunks(Hex(pkt)))
  }

  lemma B2StringSplit(pkt: seq<byte>, sep: string)
    requires |pkt| >= 2
    ensures B2String(pkt, Some(sep)) == HexByte(pkt[0]) + sep + B2String(pkt[1..], Some(sep))
  {
    assert Hex(pkt)[..2] == HexByte(pkt[0]);
    assert Hex(pkt)[2..] == Hex(pkt[1..]);
  }

  lemma {:induction false} B2StringLength(pkt: seq<byte>, sep: string)
    requires pkt != []
    ensures |B2String(pkt, Some(sep))| == 2 * |pkt| + (|pkt| - 1) * |sep|
  {
    if |pkt| == 1 {
      assert Chunks(Hex(pkt)) == [Hex(pkt)];
    } else {
      B2StringSplit(pkt, sep);
      B2StringLength(pkt[1..], sep);
    }
  }

  /** Dropping the first k byte pairs (and their separators) leaves the text of the remaining bytes. */
  lemma {:induction false} B2StringSuffix(pkt: seq<byte>, sep: string, k: nat)
    requires k < |pkt|
    ensures (2 + |sep|) * k <= |B2String(pkt, Some(sep))|
    ensures B2String(pkt, Some(sep))[(2 + |sep|) * k..] == B2String(pkt[k..], Some(sep))
  {
    if k > 0 {
      var head := HexByte(pkt[0]) + sep;
      B2StringSuffix(pkt[1..], sep, k - 1);
      B2StringSplit(pkt, sep);
      assert pkt[1..][k - 1..] == pkt[k..];
      SuffixShift(head, B2String(pkt[1..], Some(sep)), B2String(pkt[k..], Some(sep)), k);
    } else {
      assert pkt[0..] == pkt;
    }
  }

  /** If u starts at offset w * (k - 1) of t, it starts at offset w * k of head + t, where w = |head|. */
  lemma SuffixShift(head: string, t: string, u: string, k: nat)
    requires 0 < k && |head| * (k - 1) <= |t| && t[|head| * (k - 1)..] == u
    ensures |head| * k <= |head + t| && (head + t)[|head| * k..] == u
  {
    var w, o := |head|, |head| * (k - 1);
    MulStep(w, k);
    assert (head + t)[w..] == t;
    assert (head + t)[w + o..] == t[o..];
  }

  lemma MulStep(w: nat, k: nat)
    requires k > 0
    ensures w * k == w + w * (k - 1)
  {
  }

  lemma B2StringHead(pkt: seq<byte>, sep: string)
    requires pkt != []
    ensures |B2String(pkt, Some(sep))| >= 2
    ensures B2String(pkt, Some(sep))[..2] == HexByte(pkt[0])
    ensures |pkt| >= 2 ==> |B2String(pkt, Some(sep))| >= 2 + |sep| && B2String(pkt, Some(sep))[2..2 + |sep|] == sep
  {
    if |pkt| == 1 {
      assert Chunks(Hex(pkt)) == [Hex(pkt)];
    } else {
      B2StringSplit(pkt, sep);
    }
  }

  /**
   * With a separator, `b2string` yields 2n hexadecimal characters with the separator between
   * consecutive byte pairs: byte k's pair starts at k * (2 + |sep|) and is followed by `sep`.
   */
  lemma B2StringSeparated(pkt: seq<byte>, sep: string, k: nat)
    requires k < |pkt|
    ensures var s := B2String(pkt, Some(sep)); var w := 2 + |sep|;
      && |s| == 2 * |pkt| + (|pkt| - 1) * |sep|
      && w * k + 2 <= |s|
      && s[w * k..w * k + 2] == HexByte(pkt[k])
      && (k + 1 < |pkt| ==> w * k + w <= |s| && s[w * k + 2..w * k + w] == sep)
  {
    var s, w := B2String(pkt, Some(sep)), 2 + |sep|;
    var o := w * k;
    B2StringLength(pkt, sep);
    B2StringSuffix(pkt, sep, k);
    var t := B2String(pkt[k..], Some(sep));
    assert s[o..] == t;
    B2StringHead(pkt[k..], sep);
    SliceOfSuffix(s, o, 0, 2);
    if k + 1 < |pkt| {
      assert |pkt[k..]| >= 2;
      SliceOfSuffix(s, o, 2, w);
    }
  }

  lemma SliceOfSuffix(s: string, o: nat, i: nat, j: nat)
    requires o <= |s| && i <= j <= |s| - o
    ensures s[o + i..o + j] == s[o..][i..j]
  {
  }

  lemma B2StringEmpty(sep: Option<string>)
    ensures B2String([], sep) == ""
  {
  }

  /** The examples of `test_b2string`. */
  lemma B2StringExamples()
    ensures B2String([0x00, 0xff], None) == "00ff"
    ensures B2String([0x00, 0xff], Some(":")) == "00:ff"
    ensures B2String([], None) == ""
  {
    assert Hex([0x00, 0xff]) == "00ff" by {
      assert Hex([0xff]) == "ff";
    }
    assert Chunks("00ff") == ["00", "ff"];
  }

  function Pow256(n: nat): (r: nat)
    ensures r >= 1
  {
    if n == 0 then 1 else 256 * Pow256(n - 1)
  }

  /** `int.from_bytes(p, byteorder='big', signed=False)`. */
  function Unsigned(p: seq<byte>): (r: nat)
  {
    if p == [] then 0 else Unsigned(p[..|p| - 1]) * 256 + p[|p| - 1]
  }

  /** `b2number(p, signed)`: big-endian, two's complement when `signed` holds. */
  function B2Number(p: seq<byte>, signed: bool): int {
    if signed && p != [] && p[0] >= 128 then Unsigned(p) - Pow256(|p|) else Unsigned(p)
  }

  lemma {:induction false} UnsignedBound(p: seq<byte>)
    ensures Unsigned(p) < Pow256(|p|)
  {
    if p != [] {
      UnsignedBound(p[..|p| - 1]);
    }
  }

  /** The first byte is the most significant: it carries the weight 256^(n-1). */
  lemma {:induction false} UnsignedHead(p: seq<byte>)
    requires p != []
    ensures Unsigned(p) == p[0] * Pow256(|p| - 1) + Unsigned(p[1..])
  {
    if |p| > 1 {
      var q := p[..|p| - 1];
      UnsignedHead(q);
      assert q[1..] == p[1..][..|p| - 2];
      var a, w, u, l := p[0], Pow256(|p| - 2), Unsigned(q[1..]), p[|p| - 1];
      assert Unsigned(p) == Unsigned(q) * 256 + l;
      assert Unsigned(q) == a * w + u;
      assert Unsigned(p[1..]) == u * 256 + l;
      assert Pow256(|p| - 1) == w * 256;
      Distribute(a, w, u);
    }
  }

  lemma Distribute(a: int, w: int, u: int)
    ensures (a * w + u) * 256 == a * (w * 256) + u * 256
  {
  }

  /**
   * Unsigned values lie in 0 .. 256^n - 1; signed ones in -256^n/2 .. 256^n/2 - 1 and are
   * negative exactly when the first byte has its top bit set.
   */
  lemma B2NumberRange(p: seq<byte>, signed: bool)
    ensures !signed ==> 0 <= B2Number(p, signed) < Pow256(|p|)
    ensures signed && p != [] ==>
      && -(Pow256(|p|) as int) / 2 <= B2Number(p, signed) < Pow256(|p|) / 2
      && (B2Number(p, signed) < 0 <==> p[0] >= 128)
  {
    UnsignedBound(p);
    if signed && p != [] {
      TopBit(p);
    }
  }

  lemma MulLe(a: nat, b: nat, c: nat)
    requires a <= b
    ensures a * c <= b * c
  {
  }

  /** The first byte has its top bit set iff the value is at least half of 256^n. */
  lemma TopBit(p: seq<byte>)
    requires p != []
    ensures Pow256(|p|) == 256 * Pow256(|p| - 1)
    ensures p[0] >= 128 <==> Unsigned(p) >= Pow256(|p|) / 2
  {
    var n := Pow256(|p| - 1);
    UnsignedHead(p);
    UnsignedBound(p[1..]);
    if p[0] >= 128 {
      MulLe(128, p[0], n);
    } else {
      MulLe(p[0] + 1, 128, n);
    }
  }

  /** Big-endian encoding of `v` on `n` bytes, the inverse of `Unsigned`. */
  function ToBytes(v: nat, n: nat): (r: seq<byte>)
    requires v < Pow256(n)
    ensures |r| == n
  {
    if n == 0 then [] else ToBytes(v / 256, n - 1) + [v % 256]
  }

  lemma {:induction false} UnsignedToBytes(v: nat, n: nat)
    requires v < Pow256(n)
    ensures Unsigned(ToBytes(v, n)) == v
  {
    if n > 0 {
      var r := ToBytes(v, n);
      assert r[..n - 1] == ToBytes(v / 256, n - 1);
      UnsignedToBytes(v / 256, n - 1);
    }
  }

  lemma {:induction false} ToBytesUnsigned(p: seq<byte>)
    ensures Unsigned(p) < Pow256(|p|) && ToBytes(Unsigned(p), |p|) == p
  {
    UnsignedBound(p);
    if p != [] {
      var q := p[..|p| - 1];
      UnsignedBound(q);
      assert Unsigned(p) / 256 == Unsigned(q);
      assert Unsigned(p) % 256 == p[|p| - 1];
      ToBytesUnsigned(q);
    }
  }

  /** Two's complement encoding of a signed value on `n` bytes. */
  function SignedToBytes(v: int, n: nat): seq<byte>
    requires n >= 1 && -(Pow256(n) as int) / 2 <= v < Pow256(n) / 2
  {
    ToBytes(if v < 0 then v + Pow256(n) else v, n)
  }

  /** Reading back a two's complement encoding gives the value encoded. */
  lemma SignedRoundTrip(v: int, n: nat)
    requires n >= 1 && -(Pow256(n) as int) / 2 <= v < Pow256(n) / 2
    ensures B2Number(SignedToBytes(v, n), true) == v
  {
    var u := if v < 0 then v + Pow256(n) else v;
    var p := SignedToBytes(v, n);
    UnsignedToBytes(u, n);
    TopBit(p);
  }

  /** The examples of `test_b2number`. */
  lemma B2NumberExamples()
    ensures B2Number([0x00, 0xff], false) == 255
    ensures B2Number([0x00, 0xff], true) == 255
    ensures B2Number([0x80, 0xff], false) == 33023
    ensures B2Number([0x80, 0xff], true) == -32513
  {
    var a: seq<byte>, b: seq<byte> := [0x00, 0xff], [0x80, 0xff];
    assert a[..1] == [0x00] && a[..1][..0] == [];
    assert b[..1] == [0x80] && b[..1][..0] == [];
    assert Unsigned(a) == 255;
    assert Unsigned(b) == 33023;
    assert Pow256(2) == 65536;
  }

  function Reverse(s: seq<byte>): (r: seq<byte>)
    ensures |r| == |s| && forall i :: 0 <= i < |s| ==> r[i] == s[|s| - 1 - i]
  {
    if s == [] then [] else Reverse(s[1..]) + [s[0]]
  }

  /**
   * `read_packet`: a Tilt event from a 45-byte packet with the fixed header, None for any
   * other packet.
   */
  function ReadPacket(pkt: seq<byte>): Option<TiltEventData> {
    if |pkt| == TiltEventLength && pkt[..4] == TiltHeader then
      Some(TiltEventData(
        mac := B2String(Reverse(pkt[7..13]), Some(":")),
        uuid := B2String(pkt[23..39], None),
        major := B2Number(pkt[39..41], false),
        minor := B2Number(pkt[41..43], false),
        txpower := B2Number(pkt[43..44], true),
        rssi := B2Number(pkt[44..45], true)))
    else
      None
  }

  /** The mac of a decoded packet: bytes 12 down to 7 as lower-case pairs separated by `:`. */
  lemma ReadPacketMac(pkt: seq<byte>)
    requires |pkt| == TiltEventLength && pkt[..4] == TiltHeader
    ensures ReadPacket(pkt).value.mac == (HexByte(pkt[12]) + ":") + ((HexByte(pkt[11]) + ":")
      + ((HexByte(pkt[10]) + ":") + ((HexByte(pkt[9]) + ":") + ((HexByte(pkt[8]) + ":") + HexByte(pkt[7])))))
  {
    var m := Reverse(pkt[7..13]);
    assert m[0] == pkt[12] && m[1] == pkt[11] && m[2] == pkt[10];
    assert m[3] == pkt[9] && m[4] == pkt[8] && m[5] == pkt[7];
    SixPairs(m);
  }

  /** The numeric fields: unsigned big-endian 16-bit major and minor, signed 8-bit txpower and rssi. */
  lemma ReadPacketNumbers(pkt: seq<byte>)
    requires |pkt| == TiltEventLength && pkt[..4] == TiltHeader
    ensures var e := ReadPacket(pkt).value;
      && e.major == pkt[39] as int * 256 + pkt[40] && 0 <= e.major < 65536
      && e.minor == pkt[41] as int * 256 + pkt[42] && 0 <= e.minor < 65536
      && e.txpower == (if pkt[43] >= 128 then pkt[43] as int - 256 else pkt[43] as int)
      && e.rssi == (if pkt[44] >= 128 then pkt[44] as int - 256 else pkt[44] as int)
      && -128 <= e.txpower < 128 && -128 <= e.rssi < 128
  {
    assert pkt[39..41] == [pkt[39], pkt[40]];
    assert pkt[41..43] == [pkt[41], pkt[42]];
    assert pkt[43..44] == [pkt[43]] && pkt[44..45] == [pkt[44]];
    Unsigned2(pkt[39], pkt[40]);
    Unsigned2(pkt[41], pkt[42]);
    Signed1(pkt[43]);
    Signed1(pkt[44]);
  }

  lemma Unsigned2(a: byte, b: byte)
    ensures B2Number([a, b], false) == a as int * 256 + b
  {
    assert [a, b][..1] == [a] && [a][..0] == [];
    assert Unsigned([a]) == a as int;
    assert Unsigned([a, b]) == a as int * 256 + b;
  }

  lemma Signed1(a: byte)
    ensures B2Number([a], true) == if a >= 128 then a as int - 256 else a as int
  {
    assert [a][..0] == [];
    assert Unsigned([a]) == a as int;
    assert Pow256(1) == 256;
  }

  /**
   * A packet decodes iff it is exactly 45 bytes long and starts with the Tilt header; the uuid
   * of a decoded packet is the undashed lower-case hex of bytes 23..38, from which those bytes
   * can be read back.
   */
  lemma ReadPacketContract(pkt: seq<byte>)
    ensures ReadPacket(pkt).Some? <==> |pkt| == 45 && pkt[..4] == TiltHeader
    ensures ReadPacket(pkt).Some? ==>
      var e := ReadPacket(pkt).value;
      |e.uuid| == 32 && IsHexText(e.uuid) && Unhex(e.uuid) == pkt[23..39]
  {
    if ReadPacket(pkt).Some? {
      UnhexHex(pkt[23..39]);
    }
  }

  /** The valid packet of `test_read_packet`, one segment per field group. */
  const ValidFixture: seq<byte> :=
      [0x04, 0x3e, 0x2a, 0x02, 0x01, 0x03, 0x01]
    + [0x1e, 0x14, 0xfc, 0x97, 0x7f, 0xdd]
    + [0x1e, 0x02, 0x01, 0x04, 0x1a, 0xff, 0x4c, 0x00, 0x02, 0x15]
    + [0xa4, 0x95, 0xbb, 0x40, 0xc5, 0xb1, 0x4b, 0x44, 0xb5, 0x12, 0x13, 0x70, 0xf0, 0x2d, 0x74, 0xde]
    + [0x00, 0x45, 0x04, 0x22, 0x06, 0xbc]

  /** The invalid packet of `test_read_packet`: its parameter length byte is 0x28, not 0x2a. */
  const InvalidFixture: seq<byte> :=
      [0x04, 0x3e, 0x28, 0x02, 0x01, 0x02, 0x01, 0xb8, 0xbc, 0x06, 0x99, 0x97, 0x4a, 0x1c, 0x03]
    + [0x03, 0x9f, 0xfe, 0x17, 0x16, 0x9f, 0xfe, 0x00, 0x00, 0x00, 0x00, 0x00, 0x00, 0x00, 0x00]
    + [0x00, 0x00, 0x00, 0x00, 0x00, 0x00, 0x00, 0x00, 0x00, 0x00, 0x00, 0x00, 0x00, 0xb2]

  /** The hex text of a concatenation is the concatenation of the hex texts. */
  lemma {:induction false} HexAppend(a: seq<byte>, b: seq<byte>)
    ensures Hex(a + b) == Hex(a) + Hex(b)
  {
    if a == [] {
      assert a + b == b;
    } else {
      assert (a + b)[1..] == a[1..] + b;
      HexAppend(a[1..], b);
    }
  }

  lemma HexPair(a: byte, b: byte)
    ensures Hex([a, b]) == HexByte(a) + HexByte(b)
  {
    assert [a, b][1..] == [b];
    assert [b][1..] == [];
  }

  /** With a separator, a single byte prints as its two digits. */
  lemma B2StringSingle(b: byte, sep: string)
    ensures B2String([b], Some(sep)) == HexByte(b)
  {
    HexPair(b, b);
    assert [b][1..] == [];
    assert Chunks(Hex([b])) == [Hex([b])];
  }

  /** The address bytes of the valid packet of `test_read_packet`, in printing order. */
  const FixtureMacBytes: seq<byte> := [0xdd, 0x7f, 0x97, 0xfc, 0x14, 0x1e]

  /** The uuid bytes of the valid packet of `test_read_packet`. */
  const FixtureUuidBytes: seq<byte> :=
    [0xa4, 0x95, 0xbb, 0x40, 0xc5, 0xb1, 0x4b, 0x44, 0xb5, 0x12, 0x13, 0x70, 0xf0, 0x2d, 0x74, 0xde]

  lemma FixtureMacPairs()
    ensures HexByte(0xdd) == "dd" && HexByte(0x7f) == "7f" && HexByte(0x97) == "97"
    ensures HexByte(0xfc) == "fc" && HexByte(0x14) == "14" && HexByte(0x1e) == "1e"
  {
  }

  /** Six bytes joined by colons: each byte's pair, with a colon between consecutive pairs. */
  lemma SixPairs(m: seq<byte>)
    requires |m| == 6
    ensures B2String(m, Some(":")) == (HexByte(m[0]) + ":") + ((HexByte(m[1]) + ":") + ((HexByte(m[2]) + ":")
      + ((HexByte(m[3]) + ":") + ((HexByte(m[4]) + ":") + HexByte(m[5])))))
  {
    var m1, m2, m3, m4 := m[1..], m[2..], m[3..], m[4..];
    assert m1[1..] == m2 && m2[1..] == m3 && m3[1..] == m4 && m4[1..] == [m[5]];
    assert m1[0] == m[1] && m2[0] == m[2] && m3[0] == m[3] && m4[0] == m[4];
    B2StringSingle(m[5], ":");
    B2StringSplit(m4, ":");
    B2StringSplit(m3, ":");
    B2StringSplit(m2, ":");
    B2StringSplit(m1, ":");
    B2StringSplit(m, ":");
  }

  lemma FixtureMacText()
    ensures B2String(FixtureMacBytes, Some(":")) == "dd:7f:97:fc:14:1e"
  {
    var m := FixtureMacBytes;
    SixPairs(m);
    FixtureMacPairs();
    FixtureMacGroups();
  }

  lemma FixtureMacGroups()
    ensures "dd:7f:97:fc:14:1e" == ("dd" + ":") + (("7f" + ":") + (("97" + ":") + (("fc" + ":") + (("14" + ":") + "1e"))))
    ensures "dd7f97fc141e" == ("dd" + "7f") + ("97" + "fc") + ("14" + "1e")
  {
  }

  lemma FixtureMacHex()
    ensures Hex(FixtureMacBytes) == "dd7f97fc141e"
  {
    var m := FixtureMacBytes;
    assert m == [m[0], m[1]] + [m[2], m[3]] + [m[4], m[5]];
    HexAppend([m[0], m[1]] + [m[2], m[3]], [m[4], m[5]]);
    HexAppend([m[0], m[1]], [m[2], m[3]]);
    HexPair(m[0], m[1]);
    HexPair(m[2], m[3]);
    HexPair(m[4], m[5]);
    FixtureMacPairs();
    FixtureMacGroups();
  }

  /** Four bytes print as the text whose pairs are their digits. */
  lemma HexQuadText(q: seq<byte>, s: string)
    requires |q| == 4 && |s| == 8
    requires HexByte(q[0]) == s[..2] && HexByte(q[1]) == s[2..4]
    requires HexByte(q[2]) == s[4..6] && HexByte(q[3]) == s[6..]
    ensures Hex(q) == s
  {
    assert q == [q[0], q[1]] + [q[2], q[3]];
    HexAppend([q[0], q[1]], [q[2], q[3]]);
    HexPair(q[0], q[1]);
    HexPair(q[2], q[3]);
    assert s == s[..2] + s[2..4] + s[4..6] + s[6..];
  }

  lemma FixtureUuidQuad0()
    ensures Hex(FixtureUuidBytes[..4]) == "a495bb40"
  {
    var q := FixtureUuidBytes[..4];
    assert q == [0xa4, 0x95, 0xbb, 0x40];
    assert HexByte(0xa4) == "a4" && HexByte(0x95) == "95";
    assert HexByte(0xbb) == "bb" && HexByte(0x40) == "40";
    HexQuadText(q, "a495bb40");
  }

  lemma FixtureUuidQuad1()
    ensures Hex(FixtureUuidBytes[4..8]) == "c5b14b44"
  {
    var q := FixtureUuidBytes[4..8];
    assert q == [0xc5, 0xb1, 0x4b, 0x44];
    assert HexByte(0xc5) == "c5" && HexByte(0xb1) == "b1";
    assert HexByte(0x4b) == "4b" && HexByte(0x44) == "44";
    HexQuadText(q, "c5b14b44");
  }

  lemma FixtureUuidQuad2()
    ensures Hex(FixtureUuidBytes[8..12]) == "b5121370"
  {
    var q := FixtureUuidBytes[8..12];
    assert q == [0xb5, 0x12, 0x13, 0x70];
    assert HexByte(0xb5) == "b5" && HexByte(0x12) == "12";
    assert HexByte(0x13) == "13" && HexByte(0x70) == "70";
    HexQuadText(q, "b5121370");
  }

  lemma FixtureUuidQuad3()
    ensures Hex(FixtureUuidBytes[12..]) == "f02d74de"
  {
    var q := FixtureUuidBytes[12..];
    assert q == [0xf0, 0x2d, 0x74, 0xde];
    assert HexByte(0xf0) == "f0" && HexByte(0x2d) == "2d";
    assert HexByte(0x74) == "74" && HexByte(0xde) == "de";
    HexQuadText(q, "f02d74de");
  }

  lemma FixtureUuidText()
    ensures Hex(FixtureUuidBytes) == "a495bb40c5b14b44b5121370f02d74de"
  {
    var p := FixtureUuidBytes;
    var q0, q1, q2, q3 := p[..4], p[4..8], p[8..12], p[12..];
    assert p == (q0 + q1) + (q2 + q3);
    HexAppend(q0 + q1, q2 + q3);
    HexAppend(q0, q1);
    HexAppend(q2, q3);
    FixtureUuidQuad0();
    FixtureUuidQuad1();
    FixtureUuidQuad2();
    FixtureUuidQuad3();
    FixtureUuidGroups();
  }

  lemma FixtureUuidGroups()
    ensures "a495bb40c5b14b44b5121370f02d74de" == ("a495bb40" + "c5b14b44") + ("b5121370" + "f02d74de")
  {
  }

  /** The expectations of `test_read_packet`: the empty and the malformed packet are refused. */
  lemma ReadPacketRefusesFixtures()
    ensures ReadPacket([]) == None
    ensures ReadPacket(InvalidFixture) == None
  {
    assert InvalidFixture[2] == 0x28;
    assert InvalidFixture[..4][2] != TiltHeader[2];
  }

  lemma ValidFixtureFields()
    ensures |ValidFixture| == 45 && ValidFixture[..4] == TiltHeader
    ensures Reverse(ValidFixture[7..13]) == FixtureMacBytes
    ensures ValidFixture[23..39] == FixtureUuidBytes
    ensures ValidFixture[39] == 0x00 && ValidFixture[40] == 0x45 && ValidFixture[41] == 0x04
    ensures ValidFixture[42] == 0x22 && ValidFixture[43] == 0x06 && ValidFixture[44] == 0xbc
  {
    var p := ValidFixture;
    assert p[..4] == [0x04, 0x3e, 0x2a, 0x02];
    assert p[7..13] == [0x1e, 0x14, 0xfc, 0x97, 0x7f, 0xdd];
    assert Reverse(p[7..13]) == [0xdd, 0x7f, 0x97, 0xfc, 0x14, 0x1e];
  }

  /** The expectations of `test_read_packet`: the valid packet decodes to the listed event. */
  lemma ReadPacketValidFixture()
    ensures ReadPacket(ValidFixture) == Some(TiltEventData(
      mac := "dd:7f:97:fc:14:1e",
      uuid := "a495bb40c5b14b44b5121370f02d74de",
      major := 69, minor := 1058, txpower := 6, rssi := -68))
  {
    var p := ValidFixture;
    ValidFixtureFields();
    ReadPacketNumbers(p);
    FixtureMacText();
    FixtureUuidText();
    var e := ReadPacket(p).value;
    assert e.mac == "dd:7f:97:fc:14:1e";
    assert e.uuid == "a495bb40c5b14b44b5121370f02d74de";
  }
}
