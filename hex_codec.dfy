/**
 * The checkpoint station's UID encoder (convertUIDtoString in
 * Wristband_Station/src/main.cpp): the bytes of a tag UID become an
 * uppercase, zero-padded hexadecimal string, written with sprintf into a
 * fixed 20-character buffer that was first filled with '0' and terminated
 * with a NUL.
 */
module HexCodec {
  import opened Wrappers

  /** One octet of a tag UID (MFRC522::Uid::uidByte). */
  newtype byte = x: int | 0 <= x < 256

  /** `char hexStr[20]`. */
  const BufferSize: nat := 20

  /** The longest UID whose last sprintf (two digits and a NUL) stays inside the buffer. */
  const MaxUidBytes: nat := 9

  const Nul: char := '\0'

  /** The characters "%X" prints: 0-9 and A-F. */
  predicate IsHexDigit(c: char)
  {
    '0' <= c <= '9' || 'A' <= c <= 'F'
  }

  /** The uppercase digit for a nibble, as "%X" prints it. */
  function HexDigit(v: nat): (c: char)
    requires v < 16
    ensures IsHexDigit(c) && c != Nul
  {
    if v < 10 then ('0' as nat + v) as char else ('A' as nat + v - 10) as char
  }

  /** The value of an uppercase hexadecimal digit; None for every other character. */
  function DigitValue(c: char): (r: Option<nat>)
    ensures r.Some? <==> IsHexDigit(c)
    ensures r.Some? ==> r.value < 16 && HexDigit(r.value) == c
  {
    if '0' <= c <= '9' then Some(c as nat - '0' as nat)
    else if 'A' <= c <= 'F' then Some(c as nat - 'A' as nat + 10)
    else None
  }

  lemma DigitValueOfDigit(v: nat)
    requires v < 16
    ensures DigitValue(HexDigit(v)) == Some(v)
  {
  }

  /** "%02X" of one byte: the high nibble's digit, then the low nibble's. */
  function ByteHex(b: byte): (s: string)
    ensures |s| == 2
  {
    [HexDigit(b as nat / 16), HexDigit(b as nat % 16)]
  }

  /** The canonical tag string: two digits per byte, in input order, no separators. */
  function Hex(uid: seq<byte>): (s: string)
    ensures |s| == 2 * |uid|
    decreases |uid|
  {
    if uid == [] then "" else Hex(uid[..|uid| - 1]) + ByteHex(uid[|uid| - 1])
  }

  /** Characters 2i and 2i+1 of the encoding are the high and low nibble of byte i. */
  lemma {:induction false} HexAt(uid: seq<byte>, i: nat)
    requires i < |uid|
    ensures Hex(uid)[2 * i] == HexDigit(uid[i] as nat / 16)
    ensures Hex(uid)[2 * i + 1] == HexDigit(uid[i] as nat % 16)
    decreases |uid|
  {
    var init := uid[..|uid| - 1];
    assert Hex(uid) == Hex(init) + ByteHex(uid[|uid| - 1]);
    if i < |uid| - 1 {
      HexAt(init, i);
      assert init[i] == uid[i];
    }
  }

  /** Every character of the encoding is an uppercase hexadecimal digit. */
  lemma HexDigitsOnly(uid: seq<byte>)
    ensures forall k :: 0 <= k < |Hex(uid)| ==> IsHexDigit(Hex(uid)[k])
  {
    forall k | 0 <= k < |Hex(uid)|
      ensures IsHexDigit(Hex(uid)[k])
    {
      HexAt(uid, k / 2);
    }
  }

  /** The byte whose high and low nibbles are hi and lo. */
  function NibblesToByte(hi: nat, lo: nat): (b: byte)
    requires hi < 16 && lo < 16
    ensures b as nat / 16 == hi && b as nat % 16 == lo
  {
    (16 * hi + lo) as byte
  }

  lemma ByteFromNibbles(b: byte)
    ensures NibblesToByte(b as nat / 16, b as nat % 16) == b
  {
  }

  /** Reads a canonical tag string back into bytes; None if it is not one. */
  function Unhex(s: string): (r: Option<seq<byte>>)
    ensures r.Some? ==> |s| == 2 * |r.value|
    decreases |s|
  {
    if |s| < 2 then (if s == [] then Some([]) else None)
    else
      var init := Unhex(s[..|s| - 2]);
      var hi := DigitValue(s[|s| - 2]);
      var lo := DigitValue(s[|s| - 1]);
      if init.Some? && hi.Some? && lo.Some? then Some(init.value + [NibblesToByte(hi.value, lo.value)])
      else None
  }

  /** Decoding undoes encoding. */
  lemma {:induction false} UnhexHex(uid: seq<byte>)
    ensures Unhex(Hex(uid)) == Some(uid)
    decreases |uid|
  {
    if uid != [] {
      var init, last := uid[..|uid| - 1], uid[|uid| - 1];
      var s := Hex(uid);
      assert s == Hex(init) + ByteHex(last);
      assert s[..|s| - 2] == Hex(init);
      UnhexHex(init);
      DigitValueOfDigit(last as nat / 16);
      DigitValueOfDigit(last as nat % 16);
      ByteFromNibbles(last);
      assert init + [last] == uid;
    }
  }

  /** A string that decodes is a decodable string followed by two digits. */
  lemma UnhexLast(s: string)
    requires s != [] && Unhex(s).Some?
    ensures |s| >= 2 && Unhex(s[..|s| - 2]).Some?
    ensures DigitValue(s[|s| - 2]).Some? && DigitValue(s[|s| - 1]).Some?
    ensures Unhex(s).value
         == Unhex(s[..|s| - 2]).value + [NibblesToByte(DigitValue(s[|s| - 2]).value, DigitValue(s[|s| - 1]).value)]
  {
  }

  /** Only canonical strings decode: whatever decodes is the encoding of its result. */
  lemma {:induction false} HexUnhex(s: string)
    requires Unhex(s).Some?
    ensures Hex(Unhex(s).value) == s
    decreases |s|
  {
    if s != [] {
      UnhexLast(s);
      var t := s[..|s| - 2];
      var init := Unhex(t).value;
      var hi, lo := DigitValue(s[|s| - 2]).value, DigitValue(s[|s| - 1]).value;
      var b := NibblesToByte(hi, lo);
      HexUnhex(t);
      var u := init + [b];
      assert u[..|u| - 1] == init;
      assert Hex(u) == Hex(init) + ByteHex(b);
      assert ByteHex(b) == s[|s| - 2..];
      assert Hex(u) == t + s[|s| - 2..];
      assert t + s[|s| - 2..] == s;
    }
  }

  /** Distinct UIDs never share an encoding. */
  lemma HexInjective(u: seq<byte>, v: seq<byte>)
    requires Hex(u) == Hex(v)
    ensures u == v
  {
    UnhexHex(u);
    UnhexHex(v);
  }

  /** The Arduino String built from a char buffer: everything before the first NUL. */
  function CString(buf: seq<char>): (s: string)
    ensures |s| <= |buf| && s == buf[..|s|]
    ensures Nul !in s
    ensures |s| < |buf| ==> buf[|s|] == Nul
  {
    if buf == [] || buf[0] == Nul then [] else [buf[0]] + CString(buf[1..])
  }

  /** A buffer whose first NUL is at index j reads as its first j characters. */
  lemma CStringUpTo(buf: seq<char>, j: nat)
    requires j < |buf| && buf[j] == Nul
    requires forall k :: 0 <= k < j ==> buf[k] != Nul
    ensures CString(buf) == buf[..j]
  {
  }

  /** What convertUIDtoString yields for a UID, oversized UIDs rejected (None). */
  function Encoded(uid: seq<byte>): (r: Option<string>)
    ensures r.Some? <==> |uid| <= MaxUidBytes
    ensures r.Some? ==> |r.value| == if uid == [] then BufferSize - 1 else 2 * |uid|
    ensures r.Some? ==> forall k :: 0 <= k < |r.value| ==> IsHexDigit(r.value[k])
    ensures uid == [] ==> r == Some(seq(BufferSize - 1, _ => '0'))
  {
    if |uid| > MaxUidBytes then None
    else if uid == [] then Some(seq(BufferSize - 1, _ => '0'))
    else HexDigitsOnly(uid); Some(Hex(uid))
  }

  /**
   * Encodings of distinct accepted UIDs are distinct; the empty UID's 19
   * '0's cannot collide with an even-length encoding.
   */
  lemma EncodedInjective(u: seq<byte>, v: seq<byte>)
    requires |u| <= MaxUidBytes && |v| <= MaxUidBytes
    requires Encoded(u) == Encoded(v)
    ensures u == v
  {
    if u != [] && v != [] {
      HexInjective(u, v);
    }
  }

  /**
   * The contents of hexStr once the conversion loop has printed the bytes of
   * u: their digits, the NUL of the last sprintf, the '0' fill, and the NUL
   * stored at the end before the loop.
   */
  function BufferAfter(u: seq<byte>): (buf: seq<char>)
    requires |u| <= MaxUidBytes
    ensures |buf| == BufferSize
  {
    seq(BufferSize, k requires 0 <= k < BufferSize =>
      if k < 2 * |u| then Hex(u)[k]
      else if (k == 2 * |u| && u != []) || k == BufferSize - 1 then Nul
      else '0')
  }

  /** One more sprintf turns the buffer for u into the buffer for u + [b]. */
  lemma BufferAfterStep(u: seq<byte>, b: byte)
    requires |u| < MaxUidBytes
    ensures BufferAfter(u + [b])
         == BufferAfter(u)[2 * |u| := HexDigit(b as nat / 16)][2 * |u| + 1 := HexDigit(b as nat % 16)][2 * |u| + 2 := Nul]
  {
    var v := u + [b];
    assert v[..|v| - 1] == u;
    assert Hex(v) == Hex(u) + ByteHex(b);
  }

  /** The String read from the final buffer is the encoding of the UID. */
  lemma CStringOfBuffer(u: seq<byte>)
    requires |u| <= MaxUidBytes
    ensures CString(BufferAfter(u)) == Encoded(u).value
  {
    var buf := BufferAfter(u);
    if u == [] {
      CStringUpTo(buf, BufferSize - 1);
      assert buf[..BufferSize - 1] == seq(BufferSize - 1, _ => '0');
    } else {
      HexDigitsOnly(u);
      CStringUpTo(buf, 2 * |u|);
      assert buf[..2 * |u|] == Hex(u);
    }
  }

  /** sprintf(&buf[offset], "%02X", b): two digits and a terminating NUL. */
  method PrintHexByte(buf: array<char>, offset: nat, b: byte)
    requires offset + 3 <= buf.Length
    modifies buf
    ensures buf[..] == old(buf[..])[offset := HexDigit(b as nat / 16)][offset + 1 := HexDigit(b as nat % 16)][offset + 2 := Nul]
  {
    buf[offset] := HexDigit(b as nat / 16);
    buf[offset + 1] := HexDigit(b as nat % 16);
    buf[offset + 2] := Nul;
  }

  /** convertUIDtoString, with UIDs too long for the buffer rejected instead of overrunning it. */
  method ConvertUidToString(uid: seq<byte>) returns (r: Option<string>)
    ensures r == Encoded(uid)
  {
    if |uid| > MaxUidBytes {
      return None;
    }
    var hexStr := new char[BufferSize](_ => '0');
    hexStr[BufferSize - 1] := Nul;
    assert hexStr[..] == BufferAfter([]);
    var offset := 0;
    var i := 0;
    while i < |uid|
      invariant 0 <= i <= |uid| && offset == 2 * i
      invariant hexStr[..] == BufferAfter(uid[..i])
    {
      BufferAfterStep(uid[..i], uid[i]);
      PrintHexByte(hexStr, offset, uid[i]);
      assert uid[..i + 1] == uid[..i] + [uid[i]];
      offset := offset + 2;
      i := i + 1;
    }
    assert uid[..i] == uid;
    CStringOfBuffer(uid);
    r := Some(CString(hexStr[..]));
  }

  /**
   * The buffer indices the conversion loop writes for an n-byte UID, as written:
   * iteration i prints at offset 2i, storing two digits and a NUL.
   */
  function SprintfFootprint(n: nat): (fp: set<int>)
    ensures forall k :: k in fp ==> 0 <= k <= 2 * n
    ensures n > 0 ==> 2 * n in fp && 2 * n - 1 in fp
  {
    if n == 0 then {} else SprintfFootprint(n - 1) + {2 * (n - 1), 2 * (n - 1) + 1, 2 * n}
  }

  lemma {:induction false} FootprintSpan(n: nat)
    requires 0 < n
    ensures forall k :: k in SprintfFootprint(n) <==> 0 <= k <= 2 * n
  {
    if n > 1 {
      FootprintSpan(n - 1);
    }
  }

  /** The as-written loop stays inside hexStr[20] exactly for UIDs of at most nine bytes. */
  lemma AsWrittenInBoundsIff(n: nat)
    ensures (forall k :: k in SprintfFootprint(n) ==> 0 <= k < BufferSize) <==> n <= MaxUidBytes
  {
    if n > 0 {
      FootprintSpan(n);
      assert 2 * n in SprintfFootprint(n);
    }
  }

  /** A ten-byte MFRC522 UID makes the last sprintf store its NUL at hexStr[20]. */
  lemma TenByteUidOverflows()
    ensures BufferSize in SprintfFootprint(10)
    ensures !(forall k :: k in SprintfFootprint(10) ==> 0 <= k < BufferSize)
  {
    FootprintSpan(10);
  }

  /** The encoding of the example UID DE AD BE EF. */
  lemma DeadBeef()
    ensures Encoded([0xDE, 0xAD, 0xBE, 0xEF]) == Some("DEADBEEF")
  {
    var uid: seq<byte> := [0xDE, 0xAD, 0xBE, 0xEF];
    assert ByteHex(0xDE) == "DE" && ByteHex(0xAD) == "AD";
    assert ByteHex(0xBE) == "BE" && ByteHex(0xEF) == "EF";
    assert uid[..3] == [0xDE, 0xAD, 0xBE] && uid[..2] == [0xDE, 0xAD] && uid[..1] == [0xDE];
    assert uid[..3][..2] == uid[..2] && uid[..2][..1] == uid[..1] && uid[..1][..0] == [];
    assert Hex(uid[..1]) == "DE";
    assert Hex(uid[..2]) == "DEAD";
    assert Hex(uid[..3]) == "DEADBE";
    assert Hex(uid) == "DEADBEEF";
  }
}
