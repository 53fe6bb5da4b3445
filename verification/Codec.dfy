/**
 The framing of network messages (net/codec.go): a head of at most nine bytes with the sizes of the
 id and length fields packed in one meta byte, and a payload that is compressed when that helps.
 */
module Codec {
  import opened Common
  import opened Opcodes
  import opened BigInt

  const MAX_PAYLOAD := 0xff_ffff
  const HEAD_SIZE := 9

  type MsgId = x: nat | x < 0x1_0000_0000

  datatype Msg = Msg(code: Byte, id: MsgId, payload: seq<Byte>)

  /** The compressor, and the length up to which payloads are not compressed. */
  datatype Packing = Packing(encode: seq<Byte> -> seq<Byte>, decode: seq<Byte> -> Option<seq<Byte>>, minLength: int) {
    ghost predicate Inverse() { forall p :: decode(encode(p)) == Some(p) }
  }

  // ----- the meta byte -----

  function IdLengthToBits(n: bv8): bv8 { if n == 4 then 3 else n }

  function BitsToIdLength(bits: bv8): bv8 { if bits == 3 then 4 else bits }

  function StoreMeta(isize: bv8, lsize: bv8, compressed: bool): bv8
  {
    (IdLengthToBits(isize) << 6) | (lsize << 4) | (if compressed then 8 else 0)
  }

  function RetrieveMeta(meta: bv8): (bv8, bv8, bool)
  {
    (BitsToIdLength(meta >> 6), (meta << 2) >> 6, (meta << 4) >> 7 > 0)
  }

  predicate IsIdSize(n: bv8) { n == 0 || n == 1 || n == 2 || n == 4 }

  /** The meta byte holds the sizes of the fields exactly when the length field has at most three bytes. */
  lemma MetaReadsBackIff(isize: bv8, lsize: bv8, compressed: bool)
    requires IsIdSize(isize) && lsize < 8
    ensures RetrieveMeta(StoreMeta(isize, lsize, compressed)) == (isize, lsize, compressed) <==> lsize <= 3
  {
  }

  /** A longer length field spills into the id size: the sizes read back are too small together. */
  lemma MetaSpills(isize: bv8, lsize: bv8, compressed: bool)
    requires IsIdSize(isize) && 4 <= lsize < 8
    ensures var (i, l, z) := RetrieveMeta(StoreMeta(isize, lsize, compressed));
      IsIdSize(i) && l == lsize - 4 && (i == isize || i == isize + 1 || i == isize + 2) && z == compressed
  {
  }

  lemma RetrievedSizes(meta: bv8)
    ensures var (i, l, z) := RetrieveMeta(meta); IsIdSize(i) && l <= 3
  {
  }

  // ----- numbers -----

  lemma {:induction false} ShiftMinimal(n: nat, k: nat)
    ensures Shift(n, k) > 0 <==> k < |MinimalBytes(n)|
    decreases k
  {
    if k > 0 { ShiftMinimal(n / 256, k - 1); }
  }

  lemma {:induction false} ShiftByte(n: nat, k: nat)
    requires k < |MinimalBytes(n)|
    ensures MinimalBytes(n)[|MinimalBytes(n)| - 1 - k] == Shift(n, k) % 256
    decreases k
  {
    if k > 0 { ShiftByte(n / 256, k - 1); }
  }

  method VarintSize(n: nat) returns (m: nat)
    requires n > 0
    ensures m == |MinimalBytes(n)|
  {
    m := 1;
    ghost var size := |MinimalBytes(n)|;
    ShiftMinimal(n, 0);
    ShiftMinimal(n, 1);
    while Shift(n, m) > 0
      invariant 1 <= m <= size && (Shift(n, m) > 0 <==> m < size)
      decreases size - m
    {
      m := m + 1;
      ShiftMinimal(n, m);
    }
  }

  /** The shortest big-endian form; nothing is written for zero. Refused when the buffer is too small. */
  method PutVarint(buf: array<Byte>, at: nat, n: nat) returns (m: nat, ok: bool)
    requires at <= buf.Length
    modifies buf
    ensures m == |MinimalBytes(n)| && ok == (at + m <= buf.Length)
    ensures forall i :: 0 <= i < at ==> buf[i] == old(buf[i])
    ensures ok ==> buf[at..at + m] == MinimalBytes(n)
    ensures forall i :: at + m <= i < buf.Length ==> buf[i] == old(buf[i])
  {
    if n == 0 {
      return 0, true;
    }
    m := VarintSize(n);
    ok := at + m <= buf.Length;
    ghost var was, bytes := buf[..], MinimalBytes(n);
    var i := 0;
    while i < m && at + i < buf.Length
      invariant 0 <= i <= m && at + i <= buf.Length && buf[..] == Overwritten(was, at, bytes[..i])
    {
      ShiftByte(n, m - i - 1);
      OverwriteOneMore(was, at, bytes, i);
      buf[at + i] := Shift(n, m - i - 1) % 256;
      i := i + 1;
    }
    OverwrittenParts(was, at, bytes[..i]);
    assert ok ==> bytes[..i] == bytes;
  }

  /** The buffer with `data` written over it from `at` on. */
  function Overwritten(buf: seq<Byte>, at: nat, data: seq<Byte>): (r: seq<Byte>)
    requires at + |data| <= |buf|
    ensures |r| == |buf|
  {
    buf[..at] + data + buf[at + |data|..]
  }

  lemma OverwriteOneMore(buf: seq<Byte>, at: nat, data: seq<Byte>, i: nat)
    requires i < |data| && at + i < |buf|
    ensures Overwritten(buf, at, data[..i])[at + i := data[i]] == Overwritten(buf, at, data[..i + 1])
  {
  }

  lemma OverwrittenParts(buf: seq<Byte>, at: nat, data: seq<Byte>)
    requires at + |data| <= |buf|
    ensures var r := Overwritten(buf, at, data);
      && r[at..at + |data|] == data
      && (forall i :: 0 <= i < at ==> r[i] == buf[i]) && forall i :: at + |data| <= i < |buf| ==> r[i] == buf[i]
  {
  }

  /** Big-endian number of the buffer. The shifted bytes do not overlap, so or-ing them is adding them. */
  method Varint(buf: seq<Byte>) returns (n: nat)
    ensures n == FromBytes(buf)
  {
    n := 0;
    var i := 0;
    while i < |buf|
      invariant 0 <= i <= |buf| && n == FromBytes(buf[..i]) * Pow256(|buf| - i)
    {
      assert buf[..i + 1][..i] == buf[..i];
      assert FromBytes(buf[..i + 1]) == FromBytes(buf[..i]) * 256 + buf[i];
      Weigh(FromBytes(buf[..i]), buf[i], Pow256(|buf| - i - 1));
      n := n + buf[i] * Pow256(|buf| - i - 1);
      i := i + 1;
    }
    assert buf[..i] == buf;
  }

  lemma Weigh(high: nat, b: Byte, unit: nat)
    ensures high * (256 * unit) + b * unit == (high * 256 + b) * unit
  {
  }

  function IdBytes(id: MsgId): seq<Byte>
  {
    if id == 0 then [] else BytesOf(id, if id > 65535 then 4 else if id > 255 then 2 else 1)
  }

  lemma SmallPowers()
    ensures Pow256(1) == 0x100 && Pow256(2) == 0x1_0000 && Pow256(3) == 0x100_0000 && Pow256(4) == 0x1_0000_0000
  {
    assert Pow256(2) == 256 * Pow256(1);
    assert Pow256(3) == 256 * Pow256(2);
  }

  lemma BytesOf4(v: nat)
    ensures BytesOf(v, 4) == [v / 256 / 256 / 256 % 256, v / 256 / 256 % 256, v / 256 % 256, v % 256]
  {
    assert BytesOf(v / 256 / 256, 2) == [v / 256 / 256 / 256 % 256, v / 256 / 256 % 256];
    assert BytesOf(v / 256, 3) == BytesOf(v / 256 / 256, 2) + [v / 256 % 256];
  }

  lemma IdReadsBack(id: MsgId)
    ensures FromBytes(IdBytes(id)) == id && |IdBytes(id)| in {0, 1, 2, 4}
  {
    SmallPowers();
    if id > 0 { FromBytesOf(id, |IdBytes(id)|); }
  }

  method PutId(id: MsgId, buf: array<Byte>) returns (n: nat)
    requires buf.Length >= 6
    modifies buf
    ensures n == |IdBytes(id)| <= 4 && buf[2..2 + n] == IdBytes(id)
    ensures buf[0] == old(buf[0]) && buf[1] == old(buf[1])
  {
    if id == 0 {
      return 0;
    }
    if id > 65535 {
      buf[2], buf[3], buf[4], buf[5] := id / 256 / 256 / 256 % 256, id / 256 / 256 % 256, id / 256 % 256, id % 256;
      BytesOf4(id);
      return 4;
    }
    if id > 255 {
      buf[2], buf[3] := id / 256 % 256, id % 256;
      assert BytesOf(id, 2) == [id / 256 % 256, id % 256];
      return 2;
    }
    buf[2] := id % 256;
    return 1;
  }

  // ----- frames -----

  /** The payload that is sent, and whether it is the compressed one. */
  function Final(c: Packing, payload: seq<Byte>): (seq<Byte>, bool)
  {
    if |payload| > c.minLength && |c.encode(payload)| < |payload| then (c.encode(payload), true) else (payload, false)
  }

  function Small(n: nat): bv8
    requires n < 256
  {
    n as bv8
  }

  function MetaByte(meta: bv8): Byte
  {
    meta as int
  }

  function Head(isize: nat, lsize: nat, compressed: bool, code: Byte): seq<Byte>
    requires isize < 256 && lsize < 256
  {
    [MetaByte(StoreMeta(Small(isize), Small(lsize), compressed)), code]
  }

  /** The bytes of a message; none when its head does not fit the head buffer. */
  function Encode(c: Packing, m: Msg): Option<seq<Byte>>
  {
    var (payload, compressed) := Final(c, m.payload);
    var id, length := IdBytes(m.id), MinimalBytes(|payload|);
    IdReadsBack(m.id);
    if 2 + |id| + |length| > HEAD_SIZE then None
    else Some(Head(|id|, |length|, compressed, m.code) + id + length + payload)
  }

  // ----- what a frame is -----

  /** The compressed payload is sent when the payload is longer than the limit and gets shorter by it. */
  predicate Shrinks(c: Packing, payload: seq<Byte>)
  {
    |payload| > c.minLength && |c.encode(payload)| < |payload|
  }

  /** The bytes of the id field: none for zero, and one, two or four for the other numbers. */
  predicate IsIdField(id: MsgId, bytes: seq<Byte>)
  {
    FromBytes(bytes) == id && |bytes| == if id == 0 then 0 else if id < 0x100 then 1 else if id < 0x1_0000 then 2 else 4
  }

  /** The fewest bytes that hold the number. */
  predicate IsLengthField(n: nat, bytes: seq<Byte>) { FromBytes(bytes) == n && (bytes != [] ==> bytes[0] != 0) }

  /** The first byte: two bits for the size of the id, two for the size of the length, and one for compression. */
  predicate IsMeta(meta: Byte, isize: nat, lsize: nat, compressed: bool)
  {
    && (lsize <= 3 ==> meta == (if isize == 4 then 3 else isize) * 64 + lsize * 16 + if compressed then 8 else 0)
    && (meta / 8 % 2 == 1 <==> compressed) && meta % 8 == 0
  }

  /** A frame: meta byte, code, id, length, and then the payload or, if that is shorter, the compressed payload. */
  ghost predicate IsFrame(c: Packing, m: Msg, frame: seq<Byte>)
  {
    exists meta: Byte, id: seq<Byte>, length: seq<Byte> :: IsFrameOf(c, m, frame, meta, id, length)
  }

  predicate IsFrameOf(c: Packing, m: Msg, frame: seq<Byte>, meta: Byte, id: seq<Byte>, length: seq<Byte>)
  {
    var sent := if Shrinks(c, m.payload) then c.encode(m.payload) else m.payload;
    && frame == [meta, m.code] + id + length + sent
    && IsIdField(m.id, id) && IsLengthField(|sent|, length) && IsMeta(meta, |id|, |length|, Shrinks(c, m.payload))
  }

  lemma MetaIs(isize: nat, lsize: nat, compressed: bool)
    requires isize in {0, 1, 2, 4} && lsize < 8
    ensures IsMeta(MetaByte(StoreMeta(Small(isize), Small(lsize), compressed)), isize, lsize, compressed)
  {
  }

  lemma {:induction false} MinimalFirst(n: nat)
    ensures IsLengthField(n, MinimalBytes(n))
  {
    if n > 0 { MinimalFirst(n / 256); }
  }

  lemma {:induction false} LengthFieldUnique(n: nat, bytes: seq<Byte>)
    requires IsLengthField(n, bytes)
    ensures bytes == MinimalBytes(n)
  {
    if bytes != [] {
      var front := bytes[..|bytes| - 1];
      assert n == FromBytes(front) * 256 + bytes[|bytes| - 1];
      FirstCounts(bytes);
      LengthFieldUnique(n / 256, front);
    }
  }

  lemma {:induction false} FirstCounts(bytes: seq<Byte>)
    requires bytes != [] && bytes[0] != 0
    ensures FromBytes(bytes) > 0
  {
    if |bytes| > 1 { FirstCounts(bytes[..|bytes| - 1]); }
  }

  lemma IdFieldUnique(id: MsgId, bytes: seq<Byte>)
    requires IsIdField(id, bytes)
    ensures bytes == IdBytes(id)
  {
    if id > 0 { BytesOfFrom(bytes); }
  }

  /** A message is written if and only if the fields of its head fit nine bytes, and then as a frame. */
  lemma EncodeIsFrame(c: Packing, m: Msg, id: seq<Byte>, length: seq<Byte>)
    requires IsIdField(m.id, id)
    requires IsLengthField(if Shrinks(c, m.payload) then |c.encode(m.payload)| else |m.payload|, length)
    ensures Encode(c, m).Some? <==> 2 + |id| + |length| <= 9
    ensures Encode(c, m).Some? ==> IsFrame(c, m, Encode(c, m).value)
  {
    IdFieldUnique(m.id, id);
    LengthFieldUnique(if Shrinks(c, m.payload) then |c.encode(m.payload)| else |m.payload|, length);
    WrittenIsFrame(c, m);
  }

  lemma {:induction false} MinimalLengths(a: nat, b: nat)
    requires a <= b
    ensures |MinimalBytes(a)| <= |MinimalBytes(b)|
  {
    if a > 0 { MinimalLengths(a / 256, b / 256); }
  }

  /** Compression never makes a frame longer. */
  lemma NeverLonger(c: Packing, m: Msg)
    requires Encode(c, m).Some?
    ensures |Encode(c, m).value| <= 2 + |IdBytes(m.id)| + |MinimalBytes(|m.payload|)| + |m.payload|
    ensures Shrinks(c, m.payload) ==>
              |Encode(c, m).value| < 2 + |IdBytes(m.id)| + |MinimalBytes(|m.payload|)| + |m.payload|
  {
    if Shrinks(c, m.payload) { MinimalLengths(|c.encode(m.payload)|, |m.payload|); }
  }

  lemma WrittenIsFrame(c: Packing, m: Msg)
    ensures Encode(c, m).Some? ==> IsFrame(c, m, Encode(c, m).value)
  {
    if Encode(c, m).Some? {
      var sent := if Shrinks(c, m.payload) then c.encode(m.payload) else m.payload;
      var id, length := IdBytes(m.id), MinimalBytes(|sent|);
      IdReadsBack(m.id);
      MinimalFirst(|sent|);
      MetaIs(|id|, |length|, Shrinks(c, m.payload));
      var meta := MetaByte(StoreMeta(Small(|id|), Small(|length|), Shrinks(c, m.payload)));
      assert IsFrameOf(c, m, Encode(c, m).value, meta, id, length);
    }
  }

  datatype Read = Message(m: Msg, rest: seq<Byte>) | Broken(rest: seq<Byte>)

  function Unpacked(c: Packing, code: Byte, id: MsgId, payload: seq<Byte>, compressed: bool, rest: seq<Byte>): Read
  {
    if !compressed then Message(Msg(code, id, payload), rest)
    else
      match c.decode(payload)
      case None => Broken(rest)
      case Some(p) => Message(Msg(code, id, p), rest)
  }

  lemma IdFits(bs: seq<Byte>)
    requires |bs| in {0, 1, 2, 4}
    ensures FromBytes(bs) < 0x1_0000_0000
  {
    SmallPowers();
  }

  function DecodePayload(c: Packing, code: Byte, id: MsgId, lsize: nat, compressed: bool, s: seq<Byte>): Read
  {
    if |s| < lsize then Broken([])
    else
      var n, rest := FromBytes(s[..lsize]), s[lsize..];
      if n > MAX_PAYLOAD then Broken(rest)
      else if |rest| < n then Broken([])
      else Unpacked(c, code, id, rest[..n], compressed, rest[n..])
  }

  /** The rest of a message whose meta byte was read. */
  function DecodeFields(c: Packing, isize: nat, lsize: nat, compressed: bool, s: seq<Byte>): Read
    requires |s| >= 2 && isize in {0, 1, 2, 4}
  {
    if |s| < 2 + isize then Broken([])
    else
      IdFits(s[2..2 + isize]);
      DecodePayload(c, s[1], FromBytes(s[2..2 + isize]), lsize, compressed, s[2 + isize..])
  }

  /** Reading one message off the stream. */
  function Decode(c: Packing, s: seq<Byte>): Read
  {
    if |s| < 2 then Broken([])
    else
      var (i, l, compressed) := RetrieveMeta(Small(s[0]));
      RetrievedSizes(Small(s[0]));
      DecodeFields(c, i as nat, l as nat, compressed, s)
  }

  // ----- what is read -----

  lemma HighBits(meta: bv8)
    ensures (meta >> 6) as int == meta as int / 64
  {
  }

  lemma MiddleBits(meta: bv8)
    ensures ((meta << 2) >> 6) as int == meta as int / 16 % 4
  {
  }

  lemma CompressionBit(meta: bv8)
    ensures (meta << 4) >> 7 > 0 <==> meta as int / 8 % 2 == 1
  {
  }

  lemma MetaFields(b: Byte, meta: bv8)
    requires meta == Small(b) && meta as int == b
    ensures var (i, l, z) := RetrieveMeta(meta);
      && i as nat == (if b / 64 == 3 then 4 else b / 64) && l as nat == b / 16 % 4 && (z <==> b / 8 % 2 == 1)
  {
    HighBits(meta);
    MiddleBits(meta);
    CompressionBit(meta);
  }

  /** The fields in front of the rest: two bytes, id, length and payload, of the sizes that the first byte tells. */
  predicate IsRead(c: Packing, s: seq<Byte>, m: Msg, id: seq<Byte>, length: seq<Byte>, payload: seq<Byte>,
                   rest: seq<Byte>)
  {
    && |s| >= 2 && s == s[..2] + id + length + payload + rest
    && |id| == (if s[0] / 64 == 3 then 4 else s[0] / 64) && |length| == s[0] / 16 % 4
    && FromBytes(length) == |payload| && m.code == s[1] && m.id == FromBytes(id)
    && if s[0] / 8 % 2 == 1 then c.decode(payload) == Some(m.payload) else m.payload == payload
  }

  ghost predicate IsMessage(c: Packing, s: seq<Byte>, m: Msg, rest: seq<Byte>)
  {
    exists id: seq<Byte>, length: seq<Byte>, payload: seq<Byte> :: IsRead(c, s, m, id, length, payload, rest)
  }

  lemma ShortLength(bs: seq<Byte>)
    requires |bs| <= 3
    ensures FromBytes(bs) <= 0xff_ffff
  {
    SmallPowers();
    Pow256Up(|bs|);
  }

  /** A message is read exactly when all its fields are there and, if it is compressed, its payload unpacks. */
  lemma DecodeIff(c: Packing, s: seq<Byte>, m: Msg, rest: seq<Byte>)
    ensures Decode(c, s) == Message(m, rest) <==> IsMessage(c, s, m, rest)
  {
    if Decode(c, s) == Message(m, rest) {
      ReadFields(c, s, m, rest);
    }
    if id: seq<Byte>, length: seq<Byte>, payload: seq<Byte> :| IsRead(c, s, m, id, length, payload, rest) {
      FieldsRead(c, s, m, id, length, payload, rest);
    }
  }

  lemma OneUp(b: bv8)
    requires b as int < 255
    ensures (b + 1) as int == b as int + 1
  {
  }

  /** Every byte value is that of eight bits. */
  lemma {:induction false} EightBits(b: nat) returns (bits: bv8)
    requires b < 256
    ensures bits as int == b
  {
    bits := 0;
    if b > 0 {
      bits := EightBits(b - 1);
      OneUp(bits);
      bits := bits + 1;
    }
  }

  lemma WhatIsRead(c: Packing, s: seq<Byte>)
    ensures match Decode(c, s)
            case Message(m, rest) => IsMessage(c, s, m, rest)
            case Broken(_) => forall m, rest :: !IsMessage(c, s, m, rest)
  {
    forall m, rest ensures Decode(c, s) == Message(m, rest) <==> IsMessage(c, s, m, rest) { DecodeIff(c, s, m, rest); }
  }

  lemma ByteBack(b: Byte)
    ensures Small(b) as int == b
  {
    var bits := EightBits(b);
    SmallOf(bits);
  }

  lemma DecodesFields(c: Packing, s: seq<Byte>)
    requires |s| >= 2
    ensures var isize, lsize := if s[0] / 64 == 3 then 4 else s[0] / 64, s[0] / 16 % 4;
      isize in {0, 1, 2, 4} && Decode(c, s) == DecodeFields(c, isize, lsize, s[0] / 8 % 2 == 1, s)
  {
    ByteBack(s[0]);
    MetaFields(s[0], Small(s[0]));
  }

  lemma ReadFields(c: Packing, s: seq<Byte>, m: Msg, rest: seq<Byte>)
    requires Decode(c, s) == Message(m, rest)
    ensures IsMessage(c, s, m, rest)
  {
    DecodesFields(c, s);
    var isize, lsize := if s[0] / 64 == 3 then 4 else s[0] / 64, s[0] / 16 % 4;
    var id, length, payload := SplitFields(c, isize, lsize, s[0] / 8 % 2 == 1, s, m, rest);
    assert IsRead(c, s, m, id, length, payload, rest);
  }

  lemma SplitFields(c: Packing, isize: nat, lsize: nat, z: bool, s: seq<Byte>, m: Msg, rest: seq<Byte>)
    returns (id: seq<Byte>, length: seq<Byte>, payload: seq<Byte>)
    requires |s| >= 2 && isize in {0, 1, 2, 4} && DecodeFields(c, isize, lsize, z, s) == Message(m, rest)
    ensures s == s[..2] + id + length + payload + rest && |id| == isize && |length| == lsize
    ensures FromBytes(length) == |payload| && m.code == s[1] && m.id == FromBytes(id)
    ensures if z then c.decode(payload) == Some(m.payload) else m.payload == payload
  {
    id := s[2..2 + isize];
    var tail := s[2 + isize..];
    IdFits(id);
    length, payload := PayloadFields(c, s[1], FromBytes(id), lsize, z, tail, m, rest);
    Joined(s, id, tail, length, payload, rest);
  }

  lemma Joined(s: seq<Byte>, id: seq<Byte>, tail: seq<Byte>, length: seq<Byte>, payload: seq<Byte>, rest: seq<Byte>)
    requires |s| >= 2 && s[2..] == id + tail && tail == length + payload + rest
    ensures s == s[..2] + id + length + payload + rest
  {
    assert s == s[..2] + s[2..];
    assert s[..2] + (id + (length + payload + rest)) == s[..2] + id + length + payload + rest;
  }

  lemma PayloadFields(c: Packing, code: Byte, id: MsgId, lsize: nat, z: bool, s: seq<Byte>, m: Msg, rest: seq<Byte>)
    returns (length: seq<Byte>, payload: seq<Byte>)
    requires DecodePayload(c, code, id, lsize, z, s) == Message(m, rest)
    ensures s == length + payload + rest && |length| == lsize && FromBytes(length) == |payload|
    ensures m.code == code && m.id == id && if z then c.decode(payload) == Some(m.payload) else m.payload == payload
  {
    length := s[..lsize];
    payload := s[lsize..][..FromBytes(length)];
  }

  lemma FieldsRead(c: Packing, s: seq<Byte>, m: Msg, id: seq<Byte>, length: seq<Byte>, payload: seq<Byte>,
                   rest: seq<Byte>)
    requires IsRead(c, s, m, id, length, payload, rest)
    ensures Decode(c, s) == Message(m, rest)
  {
    DecodesFields(c, s);
    FieldsAre(c, s, |id|, |length|, s[0] / 8 % 2 == 1, m, id, length, payload, rest);
  }

  lemma FieldsAre(c: Packing, s: seq<Byte>, isize: nat, lsize: nat, z: bool, m: Msg, id: seq<Byte>, length: seq<Byte>,
                  payload: seq<Byte>, rest: seq<Byte>)
    requires |s| >= 2 && s == s[..2] + id + length + payload + rest && |id| == isize && |length| == lsize <= 3
    requires isize in {0, 1, 2, 4} && FromBytes(length) == |payload| && m.code == s[1] && m.id == FromBytes(id)
    requires if z then c.decode(payload) == Some(m.payload) else m.payload == payload
    ensures DecodeFields(c, isize, lsize, z, s) == Message(m, rest)
  {
    var head, tail := s[..2], length + payload + rest;
    assert s == head + id + tail;
    FieldsOf(c, head, id, lsize, z, tail);
    PayloadRead(c, head[1], m.id, z, m, length, payload, rest);
  }

  lemma PayloadRead(c: Packing, code: Byte, id: MsgId, z: bool, m: Msg, length: seq<Byte>, payload: seq<Byte>,
                    rest: seq<Byte>)
    requires |length| <= 3 && FromBytes(length) == |payload| && m.code == code && m.id == id
    requires if z then c.decode(payload) == Some(m.payload) else m.payload == payload
    ensures DecodePayload(c, code, id, |length|, z, length + payload + rest) == Message(m, rest)
  {
    ShortLength(length);
    var s := length + payload + rest;
    assert s[..|length|] == length && s[|length|..] == payload + rest;
    assert (payload + rest)[..|payload|] == payload && (payload + rest)[|payload|..] == rest;
  }

  // ----- reading back what was written -----

  ghost predicate Fits(c: Packing, m: Msg) { |Final(c, m.payload).0| <= MAX_PAYLOAD }

  lemma LengthSize(n: nat)
    ensures n <= MAX_PAYLOAD <==> |MinimalBytes(n)| <= 3
  {
    SmallPowers();
    if n <= MAX_PAYLOAD {
      MinimalBytesShort(n, 3);
    } else if |MinimalBytes(n)| <= 3 {
      Pow256Up(|MinimalBytes(n)|);
      assert false;
    }
  }

  lemma Pow256Up(k: nat)
    requires k <= 3
    ensures Pow256(k) <= Pow256(3)
  {
    SmallPowers();
  }

  /** The parts of a stream that starts with a frame. */
  lemma Parts(a: seq<Byte>, id: seq<Byte>, rest: seq<Byte>)
    requires |a| == 2
    ensures var s := a + id + rest; s[..2] == a && s[2..2 + |id|] == id && s[2 + |id|..] == rest
  {
  }

  lemma FinalUnpacks(c: Packing, m: Msg, rest: seq<Byte>)
    requires c.Inverse()
    ensures var (payload, z) := Final(c, m.payload); Unpacked(c, m.code, m.id, payload, z, rest) == Message(m, rest)
  {
    assert c.decode(c.encode(m.payload)) == Some(m.payload);
  }

  lemma PayloadReadsBack(c: Packing, code: Byte, id: MsgId, payload: seq<Byte>, z: bool, rest: seq<Byte>)
    requires |payload| <= MAX_PAYLOAD
    ensures var length := MinimalBytes(|payload|);
      DecodePayload(c, code, id, |length|, z, length + payload + rest) == Unpacked(c, code, id, payload, z, rest)
  {
    var length := MinimalBytes(|payload|);
    var s := length + payload + rest;
    assert s[..|length|] == length && s[|length|..] == payload + rest;
    assert (payload + rest)[..|payload|] == payload && (payload + rest)[|payload|..] == rest;
  }

  lemma SmallBack(n: nat)
    requires n < 8
    ensures Small(n) as nat == n && Small(n) < 8
  {
    assert n == 0 || n == 1 || n == 2 || n == 3 || n == 4 || n == 5 || n == 6 || n == 7;
  }

  lemma SmallOf(b: bv8)
    ensures Small(MetaByte(b)) == b
  {
  }

  lemma DecodeMeta(c: Packing, meta: bv8, isize: nat, lsize: nat, z: bool, s: seq<Byte>)
    requires isize < 8 && lsize < 8 && RetrieveMeta(meta) == (Small(isize), Small(lsize), z)
    requires |s| >= 2 && s[0] == MetaByte(meta)
    ensures isize in {0, 1, 2, 4} && Decode(c, s) == DecodeFields(c, isize, lsize, z, s)
  {
    RetrievedSizes(meta);
    SmallBack(isize);
    SmallBack(lsize);
    SmallOf(meta);
  }

  /** What the meta byte of a message that fits says. */
  lemma MetaOfFitting(c: Packing, m: Msg, s: seq<Byte>)
    requires Fits(c, m) && Encode(c, m).Some? && |s| >= 2 && s[0] == Encode(c, m).value[0]
    ensures var (payload, z) := Final(c, m.payload);
      |IdBytes(m.id)| in {0, 1, 2, 4} &&
        Decode(c, s) == DecodeFields(c, |IdBytes(m.id)|, |MinimalBytes(|payload|)|, z, s)
  {
    var (payload, z) := Final(c, m.payload);
    var id, length := IdBytes(m.id), MinimalBytes(|payload|);
    LengthSize(|payload|);
    IdReadsBack(m.id);
    SmallBack(|id|);
    SmallBack(|length|);
    MetaReadsBackIff(Small(|id|), Small(|length|), z);
    DecodeMeta(c, StoreMeta(Small(|id|), Small(|length|), z), |id|, |length|, z, s);
  }

  lemma FieldsOf(c: Packing, head: seq<Byte>, id: seq<Byte>, lsize: nat, z: bool, tail: seq<Byte>)
    requires |head| == 2 && |id| in {0, 1, 2, 4}
    ensures FromBytes(id) < 0x1_0000_0000
    ensures DecodeFields(c, |id|, lsize, z, head + id + tail) ==
            DecodePayload(c, head[1], FromBytes(id), lsize, z, tail)
  {
    IdFits(id);
    Parts(head, id, tail);
  }

  function FrameHead(c: Packing, m: Msg): seq<Byte>
  {
    IdReadsBack(m.id);
    var (payload, z) := Final(c, m.payload);
    if |MinimalBytes(|payload|)| > 7 then [] else Head(|IdBytes(m.id)|, |MinimalBytes(|payload|)|, z, m.code)
  }

  function Body(c: Packing, m: Msg): seq<Byte>
  {
    var payload := Final(c, m.payload).0;
    MinimalBytes(|payload|) + payload
  }

  lemma EncodeParts(c: Packing, m: Msg)
    requires Encode(c, m).Some?
    ensures |IdBytes(m.id)| in {0, 1, 2, 4} && FromBytes(IdBytes(m.id)) == m.id
    ensures |IdBytes(m.id)| + |MinimalBytes(|Final(c, m.payload).0|)| <= 7
    ensures |FrameHead(c, m)| == 2 && FrameHead(c, m)[1] == m.code
    ensures Encode(c, m).value == FrameHead(c, m) + IdBytes(m.id) + Body(c, m)
  {
    IdReadsBack(m.id);
    var payload := Final(c, m.payload).0;
    Associate(FrameHead(c, m), IdBytes(m.id), MinimalBytes(|payload|), payload);
  }

  lemma Associate<T>(a: seq<T>, b: seq<T>, c: seq<T>, d: seq<T>)
    ensures a + b + c + d == a + b + (c + d)
  {
  }

  lemma EncodesWhenFits(c: Packing, m: Msg)
    requires Fits(c, m)
    ensures Encode(c, m).Some?
  {
    IdReadsBack(m.id);
    LengthSize(|Final(c, m.payload).0|);
  }

  /** A message that fits is read back exactly, and what follows it stays for the next read. */
  lemma ReadsBack(c: Packing, m: Msg, rest: seq<Byte>)
    requires c.Inverse() && Fits(c, m)
    ensures Encode(c, m).Some? && Decode(c, Encode(c, m).value + rest) == Message(m, rest)
  {
    EncodesWhenFits(c, m);
    EncodeParts(c, m);
    var (payload, z) := Final(c, m.payload);
    var id, length := IdBytes(m.id), MinimalBytes(|payload|);
    MetaOfFitting(c, m, Encode(c, m).value + rest);
    Associate(FrameHead(c, m), id, Body(c, m), rest);
    FieldsOf(c, FrameHead(c, m), id, |length|, z, Body(c, m) + rest);
    PayloadReadsBack(c, m.code, m.id, payload, z, rest);
    FinalUnpacks(c, m, rest);
  }

  lemma ConsumedAtMost(c: Packing, code: Byte, id: MsgId, lsize: nat, z: bool, s: seq<Byte>)
    requires lsize <= 3 && |s| >= lsize + MAX_PAYLOAD
    ensures |DecodePayload(c, code, id, lsize, z, s).rest| + lsize + MAX_PAYLOAD >= |s|
  {
    SmallPowers();
    Pow256Up(|s[..lsize]|);
  }

  lemma SpilledSizes(isize: nat, lsize: nat, z: bool)
    requires isize in {0, 1, 2, 4} && 4 <= lsize < 8
    ensures var (i, l, z') := RetrieveMeta(StoreMeta(Small(isize), Small(lsize), z));
      (i as nat) in {0, 1, 2, 4} && i as nat <= isize + 2 && l as nat == lsize - 4
  {
    SmallBack(isize);
    SmallBack(lsize);
    MetaSpills(Small(isize), Small(lsize), z);
  }

  lemma FieldsConsume(c: Packing, isize: nat, lsize: nat, z: bool, s: seq<Byte>)
    requires isize in {0, 1, 2, 4} && lsize <= 3 && |s| >= 2 + isize + lsize + MAX_PAYLOAD
    ensures |DecodeFields(c, isize, lsize, z, s).rest| + 2 + isize + lsize + MAX_PAYLOAD >= |s|
  {
    IdFits(s[2..2 + isize]);
    ConsumedAtMost(c, s[1], FromBytes(s[2..2 + isize]), lsize, z, s[2 + isize..]);
  }

  /** A head with spilled sizes makes the reader take fewer bytes than were written. */
  lemma SpilledRead(c: Packing, isize: nat, lsize: nat, z: bool, s: seq<Byte>)
    requires isize in {0, 1, 2, 4} && 4 <= lsize < 8
    requires |s| > 2 + isize + lsize + MAX_PAYLOAD && s[0] == MetaByte(StoreMeta(Small(isize), Small(lsize), z))
    ensures |Decode(c, s).rest| + isize + lsize + MAX_PAYLOAD >= |s|
  {
    var meta := StoreMeta(Small(isize), Small(lsize), z);
    SpilledSizes(isize, lsize, z);
    SmallOf(meta);
    var (i, l, z') := RetrieveMeta(meta);
    FieldsConsume(c, i as nat, l as nat, z', s);
  }

  /**
   A message that does not fit, if it can be written at all, leaves bytes of its own in the stream for the next read.
   */
  lemma Misframes(c: Packing, m: Msg, rest: seq<Byte>)
    requires !Fits(c, m) && Encode(c, m).Some?
    ensures |Decode(c, Encode(c, m).value + rest).rest| > |rest|
  {
    var (payload, z) := Final(c, m.payload);
    EncodeParts(c, m);
    LengthSize(|payload|);
    SpilledRead(c, |IdBytes(m.id)|, |MinimalBytes(|payload|)|, z, Encode(c, m).value + rest);
  }

  /** With an id of four bytes such a message cannot be written: its head overruns the buffer. */
  lemma LongHeadOverruns(c: Packing, m: Msg)
    requires !Fits(c, m)
    ensures m.id > 65535 ==> Encode(c, m).None?
  {
    IdReadsBack(m.id);
    LengthSize(|Final(c, m.payload).0|);
  }

  /** Reading back what was written is exact, whatever follows, if and only if the sent payload is below 2^24 bytes. */
  lemma ReadsBackIff(c: Packing, m: Msg, rest: seq<Byte>)
    requires c.Inverse()
    ensures (Encode(c, m).Some? && Decode(c, Encode(c, m).value + rest) == Message(m, rest)) <==> Fits(c, m)
  {
    if Fits(c, m) {
      ReadsBack(c, m, rest);
    } else if Encode(c, m).Some? {
      Misframes(c, m, rest);
    }
  }

  // ----- a whole stream, cut anywhere -----

  lemma PayloadCut(c: Packing, code: Byte, id: MsgId, payload: seq<Byte>, z: bool, n: nat)
    requires |payload| <= MAX_PAYLOAD && n < |MinimalBytes(|payload|)| + |payload|
    ensures var length := MinimalBytes(|payload|);
      DecodePayload(c, code, id, |length|, z, (length + payload)[..n]) == Broken([])
  {
    var length := MinimalBytes(|payload|);
    if n >= |length| {
      assert (length + payload)[..n][..|length|] == length;
    }
  }

  lemma FieldsCut(c: Packing, head: seq<Byte>, id: seq<Byte>, payload: seq<Byte>, z: bool, n: nat)
    requires |head| == 2 && |id| in {0, 1, 2, 4} && |payload| <= MAX_PAYLOAD
    requires 2 <= n < 2 + |id| + |MinimalBytes(|payload|) + payload|
    ensures var body := MinimalBytes(|payload|) + payload;
      DecodeFields(c, |id|, |MinimalBytes(|payload|)|, z, (head + id + body)[..n]) == Broken([])
  {
    var length := MinimalBytes(|payload|);
    var body := length + payload;
    var s := (head + id + body)[..n];
    if n < 2 + |id| {
      assert |s| < 2 + |id|;
    } else {
      var k := n - 2 - |id|;
      TakeConcat(head + id, body, n);
      assert s == head + id + body[..k];
      FieldsOf(c, head, id, |length|, z, body[..k]);
      PayloadCut(c, head[1], FromBytes(id), payload, z, k);
    }
  }

  /** No proper prefix of a message is taken for a message. */
  lemma CutMessage(c: Packing, m: Msg, n: nat)
    requires Fits(c, m) && Encode(c, m).Some? && n < |Encode(c, m).value|
    ensures Decode(c, Encode(c, m).value[..n]) == Broken([])
  {
    EncodeParts(c, m);
    if n >= 2 {
      var (payload, z) := Final(c, m.payload);
      MetaOfFitting(c, m, Encode(c, m).value[..n]);
      FieldsCut(c, FrameHead(c, m), IdBytes(m.id), payload, z, n);
    }
  }

  lemma TakeConcat<T>(a: seq<T>, b: seq<T>, n: nat)
    requires n <= |a| + |b|
    ensures (a + b)[..n] == if n < |a| then a[..n] else a + b[..n - |a|]
  {
  }

  type Framing = Msg -> seq<Byte>
  type Reader = seq<Byte> -> Read

  /** The reader finds the frame at the start of any stream, and takes no part of it for a message. */
  ghost predicate SelfDelimiting(f: Framing, d: Reader, m: Msg)
  {
    && f(m) != []
    && (forall rest :: d(f(m) + rest) == Message(m, rest))
    && (forall n :: 0 <= n < |f(m)| ==> d(f(m)[..n]) == Broken([]))
  }

  function EncodeAll(f: Framing, ms: seq<Msg>): seq<Byte>
  {
    if ms == [] then [] else f(ms[0]) + EncodeAll(f, ms[1..])
  }

  /** The messages a reader gets from a stream, up to the first read that fails. */
  function Reads(d: Reader, s: seq<Byte>): seq<Msg>
    decreases |s|
  {
    if s == [] then []
    else
      match d(s)
      case Broken(_) => []
      case Message(m, rest) => if |rest| < |s| then [m] + Reads(d, rest) else [m]
  }

  /** How many of the messages are complete within the first `n` bytes of the stream. */
  function Whole(f: Framing, ms: seq<Msg>, n: nat): (k: nat)
    ensures k <= |ms|
  {
    if ms == [] || n < |f(ms[0])| then 0 else 1 + Whole(f, ms[1..], n - |f(ms[0])|)
  }

  lemma Rejoin<T>(s: seq<T>, k: nat)
    requires |s| > 0 && k < |s|
    ensures [s[0]] + s[1..][..k] == s[..k + 1]
  {
  }

  lemma {:induction false} CutFrames(f: Framing, d: Reader, ms: seq<Msg>, n: nat)
    requires forall i :: 0 <= i < |ms| ==> SelfDelimiting(f, d, ms[i])
    requires n <= |EncodeAll(f, ms)|
    ensures Reads(d, EncodeAll(f, ms)[..n]) == ms[..Whole(f, ms, n)]
  {
    if ms != [] {
      var frame, rest := f(ms[0]), EncodeAll(f, ms[1..]);
      assert SelfDelimiting(f, d, ms[0]);
      TakeConcat(frame, rest, n);
      if n >= |frame| {
        var k := n - |frame|;
        CutFrames(f, d, ms[1..], k);
        Rejoin(ms, Whole(f, ms[1..], k));
      }
    }
  }

  function Writer(c: Packing): Framing
  {
    m => match Encode(c, m) case Some(bytes) => bytes case None => []
  }

  function ReaderOf(c: Packing): Reader
  {
    s => Decode(c, s)
  }

  /** The framing is self-delimiting for every message that fits. */
  lemma FramesAreSelfDelimiting(c: Packing, m: Msg)
    requires c.Inverse() && Fits(c, m)
    ensures SelfDelimiting(Writer(c), ReaderOf(c), m)
  {
    var f, d := Writer(c), ReaderOf(c);
    EncodesWhenFits(c, m);
    EncodeParts(c, m);
    forall rest ensures d(f(m) + rest) == Message(m, rest) { ReadsBack(c, m, rest); }
    forall n | 0 <= n < |f(m)| ensures d(f(m)[..n]) == Broken([]) { CutMessage(c, m, n); }
  }

  /** Cutting a stream of messages anywhere, the reader gets exactly the messages that are complete before the cut. */
  lemma CutStream(c: Packing, ms: seq<Msg>, n: nat)
    requires c.Inverse() && (forall i :: 0 <= i < |ms| ==> Fits(c, ms[i])) && n <= |EncodeAll(Writer(c), ms)|
    ensures Reads(ReaderOf(c), EncodeAll(Writer(c), ms)[..n]) == ms[..Whole(Writer(c), ms, n)]
  {
    forall i | 0 <= i < |ms| ensures SelfDelimiting(Writer(c), ReaderOf(c), ms[i]) {
      FramesAreSelfDelimiting(c, ms[i]);
    }
    CutFrames(Writer(c), ReaderOf(c), ms, n);
  }

  lemma {:induction false} AllWhole(f: Framing, ms: seq<Msg>)
    ensures Whole(f, ms, |EncodeAll(f, ms)|) == |ms|
  {
    if ms != [] { AllWhole(f, ms[1..]); }
  }

  /** A whole stream is read back as the messages that were written. */
  lemma StreamReadsBack(c: Packing, ms: seq<Msg>)
    requires c.Inverse() && forall i :: 0 <= i < |ms| ==> Fits(c, ms[i])
    ensures Reads(ReaderOf(c), EncodeAll(Writer(c), ms)) == ms
  {
    var s := EncodeAll(Writer(c), ms);
    CutStream(c, ms, |s|);
    AllWhole(Writer(c), ms);
    assert s[..|s|] == s && ms[..|ms|] == ms;
  }

  // ----- the two ends of a connection -----

  lemma KeepsFront(h: seq<Byte>, h': seq<Byte>, n: nat)
    requires 2 <= n <= |h| == |h'| && forall i :: 0 <= i < n ==> h'[i] == h[i]
    ensures h'[2..n] == h[2..n]
  {
  }

  lemma SetFirst(h: seq<Byte>, h': seq<Byte>, id: seq<Byte>, length: seq<Byte>)
    requires 2 + |id| + |length| <= |h| == |h'| && h' == h[0 := h'[0]]
    requires h[2..2 + |id|] == id && h[2 + |id|..2 + |id| + |length|] == length
    ensures h'[..2 + |id| + |length|] == [h'[0], h[1]] + id + length
  {
    var n := 2 + |id|;
    assert h'[..n] == [h'[0], h[1]] + h[2..n];
    assert h'[..n + |length|] == h'[..n] + h[n..n + |length|];
  }

  lemma Append(a: seq<Byte>, b: seq<Byte>, c: seq<Byte>)
    ensures a + b + c == a + (b + c)
  {
  }

  lemma SliceOfRest(s: seq<Byte>, a: nat, b: nat)
    requires a + b <= |s|
    ensures s[a..][..b] == s[a..a + b] && s[a..][b..] == s[a + b..]
  {
  }

  class Transport {
    const packing: Packing
    const head: array<Byte>
    var outgoing: seq<Byte>
    var incoming: seq<Byte>

    constructor (packing: Packing, incoming: seq<Byte>)
      ensures this.packing == packing && this.incoming == incoming && outgoing == []
      ensures fresh(head) && head.Length == HEAD_SIZE
    {
      this.packing, this.incoming, outgoing := packing, incoming, [];
      head := new Byte[HEAD_SIZE];
    }

    /** The head of a message, with the given length of payload; false when it overruns the buffer. */
    method FillHead(msg: Msg, length: nat, compress: bool) returns (size: nat, ok: bool)
      requires head.Length == HEAD_SIZE
      modifies head
      ensures ok == (2 + |IdBytes(msg.id)| + |MinimalBytes(length)| <= HEAD_SIZE)
      ensures ok ==> size == 2 + |IdBytes(msg.id)| + |MinimalBytes(length)|
      ensures ok ==> head[..size] == Head(|IdBytes(msg.id)|, |MinimalBytes(length)|, compress, msg.code)
                                     + IdBytes(msg.id) + MinimalBytes(length)
    {
      var isize, lsize;
      isize, lsize, ok := FillFields(msg, length);
      size := 2 + isize + lsize;
      if ok {
        ghost var h := head[..];
        head[0] := MetaByte(StoreMeta(Small(isize), Small(lsize), compress));
        SetFirst(h, head[..], IdBytes(msg.id), MinimalBytes(length));
      }
    }

    /** All of the head but its first byte. */
    method FillFields(msg: Msg, length: nat) returns (isize: nat, lsize: nat, ok: bool)
      requires head.Length == HEAD_SIZE
      modifies head
      ensures isize == |IdBytes(msg.id)| <= 4 && lsize == |MinimalBytes(length)| &&
              ok == (2 + isize + lsize <= HEAD_SIZE)
      ensures ok ==> head[..][1] == msg.code && head[..][2..2 + isize] == IdBytes(msg.id)
      ensures ok ==> head[..][2 + isize..2 + isize + lsize] == MinimalBytes(length)
    {
      head[1] := msg.code;
      isize := PutId(msg.id, head);
      ghost var h := head[..];
      assert h[2..2 + isize] == IdBytes(msg.id);
      lsize, ok := PutVarint(head, 2 + isize, length);
      KeepsFront(h, head[..], 2 + isize);
    }

    /** Writing a message; false when its head overruns the buffer, and then nothing is sent. */
    method WriteMsg(msg: Msg) returns (ok: bool)
      requires head.Length == HEAD_SIZE
      modifies this, head
      ensures ok == Encode(packing, msg).Some?
      ensures outgoing == old(outgoing) + Writer(packing)(msg) && incoming == old(incoming)
      ensures if ok then old(outgoing) <= outgoing && IsFrame(packing, msg, outgoing[|old(outgoing)|..])
              else outgoing == old(outgoing)
    {
      var payload, compress := Compress(msg.payload);
      var size;
      size, ok := FillHead(msg, |payload|, compress);
      WrittenIsFrame(packing, msg);
      if ok {
        ghost var front := head[..size];
        outgoing := outgoing + head[..size];
        outgoing := outgoing + payload;
        Append(old(outgoing), front, payload);
      }
    }

    /** The payload to send: the compressed one when the payload is long and shrinks. */
    method Compress(payload: seq<Byte>) returns (sent: seq<Byte>, compress: bool)
      ensures (sent, compress) == Final(packing, payload)
    {
      sent, compress := payload, false;
      if |payload| > packing.minLength {
        var compressed := packing.encode(payload);
        if |compressed| < |payload| {
          sent, compress := compressed, true;
        }
      }
    }

    /** Taking the next bytes off the connection; when there are too few of them all are lost. */
    method ReadFull(n: nat) returns (bytes: seq<Byte>, ok: bool)
      modifies this
      ensures ok == (n <= |old(incoming)|) && outgoing == old(outgoing)
      ensures if ok then bytes == old(incoming)[..n] && incoming == old(incoming)[n..] else incoming == []
    {
      if n > |incoming| {
        bytes, incoming, ok := incoming, [], false;
      } else {
        bytes, incoming, ok := incoming[..n], incoming[n..], true;
      }
    }

    method ReadPayload(code: Byte, id: MsgId, lsize: nat, compressed: bool) returns (msg: Msg, ok: bool)
      requires lsize <= 3
      modifies this
      ensures DecodePayload(packing, code, id, lsize, compressed, old(incoming)) ==
              if ok then Message(msg, incoming) else Broken(incoming)
      ensures outgoing == old(outgoing)
    {
      var bytes, payload;
      payload, msg := [], Msg(code, id, []);
      if lsize > 0 {
        bytes, ok := ReadFull(lsize);
        if !ok { return; }
        var length := Varint(bytes);
        if length > MAX_PAYLOAD { return msg, false; }
        payload, ok := ReadFull(length);
        if !ok { return; }
      }
      if compressed {
        match packing.decode(payload) {
          case None => return msg, false;
          case Some(p) => payload := p;
        }
      }
      return Msg(code, id, payload), true;
    }

    /** Reading a message; on failure the connection is left where the reading stopped. */
    method ReadMsg() returns (msg: Msg, ok: bool)
      modifies this
      ensures Decode(packing, old(incoming)) == if ok then Message(msg, incoming) else Broken(incoming)
      ensures if ok then IsMessage(packing, old(incoming), msg, incoming)
              else forall m, rest :: !IsMessage(packing, old(incoming), m, rest)
      ensures outgoing == old(outgoing)
    {
      WhatIsRead(packing, incoming);
      var buf;
      msg := Msg(0, 0, []);
      buf, ok := ReadFull(2);
      if !ok { return; }
      var (i, l, compressed) := RetrieveMeta(Small(buf[0]));
      RetrievedSizes(Small(buf[0]));
      var isize, lsize, code, id: MsgId := i as nat, l as nat, buf[1], 0;
      if isize > 0 {
        buf, ok := ReadFull(isize);
        if !ok { return; }
        IdFits(buf);
        id := Varint(buf);
        SliceOfRest(old(incoming), 2, isize);
      }
      msg, ok := ReadPayload(code, id, lsize, compressed);
    }
  }
}
