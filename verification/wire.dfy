// The Protocol Buffers wire format ("Base 128 Varints", "Signed Integers",
// "Length-Delimited Records") for the eleven fields of MeshMessage.

module Wire {
  import opened Base

  datatype MeshMessage = MeshMessage(
    messageType: u32,
    dataType: i32,
    origin: seq<byte>,
    target: seq<byte>,
    lastHop: seq<byte>,
    data: seq<byte>,
    hopCount: u32,
    epochNum: u32,
    seqNum: u32,
    protoVersion: u32,
    publicKey: seq<byte>)

  const DEFAULT := MeshMessage(0, 0, [], [], [], [], 0, 0, 0, 0, [])

  // ---- Base 128 varints ----

  function Varint(n: nat): (s: seq<byte>)
    ensures |s| >= 1
  {
    if n < 128 then [n] else [n % 128 + 128] + Varint(n / 128)
  }

  /** Reads a varint of at most ten bytes and 64 bits; `k` bytes have been read before `s`. */
  function ReadVarint(s: seq<byte>, k: nat): (r: Option<(nat, seq<byte>)>)
    requires k < 10
    ensures r.Some? ==> |r.value.1| < |s|
    decreases |s|
  {
    if s == [] then None
    else if s[0] < 128 then
      if k == 9 && s[0] > 1 then None else Some((s[0], s[1..]))
    else if k == 9 then None
    else
      match ReadVarint(s[1..], k + 1)
      case Some((v, rest)) => Some((s[0] - 128 + 128 * v, rest))
      case None => None
  }

  lemma {:induction false} VarintRoundTrip(n: nat, rest: seq<byte>, k: nat)
    requires |Varint(n)| + k <= 9
    ensures ReadVarint(Varint(n) + rest, k) == Some((n, rest))
  {
    var s := Varint(n) + rest;
    if n < 128 {
      assert s[1..] == rest;
    } else {
      VarintRoundTrip(n / 128, rest, k + 1);
      assert s[1..] == Varint(n / 128) + rest;
    }
  }

  /** The number a little-endian string of seven-bit groups stands for, whatever the continuation bits. */
  function Groups(s: seq<byte>): nat
  {
    if s == [] then 0 else s[0] % 128 + 128 * Groups(s[1..])
  }

  /** A varint is the shortest string of groups for its number, with the continuation bit on all but the last. */
  lemma {:induction false} VarintBytes(n: nat)
    ensures var s := Varint(n); var last := |s| - 1;
      && Groups(s) == n && s[last] < 128 && (last > 0 ==> s[last] != 0)
      && forall i :: 0 <= i < last ==> s[i] >= 128
  {
    if n < 128 {
      assert Groups([n][1..]) == 0;
    } else {
      VarintBytes(n / 128);
      var s := Varint(n);
      assert s[1..] == Varint(n / 128);
      assert forall i :: 1 <= i < |s| ==> s[i] == s[1..][i - 1];
    }
  }

  function Pow128(k: nat): (p: nat)
    ensures p >= 1
  {
    if k == 0 then 1 else 128 * Pow128(k - 1)
  }

  lemma {:induction false} VarintSize(n: nat, k: nat)
    requires k >= 1 && n < Pow128(k)
    ensures |Varint(n)| <= k
  {
    if n < 128 {
    } else {
      assert k > 1 by {
        assert Pow128(1) == 128 * Pow128(0);
      }
      VarintSize(n / 128, k - 1);
    }
  }

  lemma Powers()
    ensures Pow128(1) == 128 && Pow128(5) == 0x8_0000_0000 && Pow128(9) == 0x8000_0000_0000_0000
  {
    assert Pow128(1) == 128 * Pow128(0);
    assert Pow128(2) == 0x4000 && Pow128(3) == 0x20_0000 && Pow128(4) == 0x1000_0000;
    assert Pow128(5) == 0x8_0000_0000 && Pow128(6) == 0x400_0000_0000;
    assert Pow128(7) == 0x2_0000_0000_0000 && Pow128(8) == 0x100_0000_0000_0000;
  }

  // ---- Signed integers ----

  function ZigZag(n: i32): u32
  {
    if n >= 0 then 2 * n else -2 * n - 1
  }

  function UnZigZag(u: u32): i32
  {
    if u % 2 == 0 then u / 2 else -((u + 1) / 2)
  }

  lemma ZigZagInverse(n: i32, u: u32)
    ensures UnZigZag(ZigZag(n)) == n
    ensures ZigZag(UnZigZag(u)) == u
  {
  }

  /** Numbers of smaller magnitude come first, and a negative one just before its opposite. */
  lemma ZigZagOrder(a: i32, b: i32)
    ensures Magnitude(a) < Magnitude(b) ==> ZigZag(a) < ZigZag(b)
    ensures a > 0 && b == -a ==> ZigZag(b) + 1 == ZigZag(a)
    ensures ZigZag(0) == 0
  {
  }

  function Magnitude(n: i32): nat
  {
    if n < 0 then -(n as int) else n
  }

  // ---- Records ----

  datatype Value =
    | VarintValue(n: nat)
    | Fixed64Value(bits: seq<byte>)
    | BytesValue(b: seq<byte>)
    | Fixed32Value(bits: seq<byte>)

  datatype Record = Record(num: nat, value: Value)

  const MAX_FIELD_NUMBER := 0x1FFF_FFFF

  function ReadValue(wireType: nat, s: seq<byte>): (r: Option<(Value, seq<byte>)>)
    ensures r.Some? ==> |r.value.1| <= |s|
  {
    if wireType == 0 then
      match ReadVarint(s, 0)
      case Some((n, rest)) => Some((VarintValue(n), rest))
      case None => None
    else if wireType == 1 then
      if |s| < 8 then None else Some((Fixed64Value(s[..8]), s[8..]))
    else if wireType == 2 then
      match ReadVarint(s, 0)
      case Some((n, rest)) => if |rest| < n then None else Some((BytesValue(rest[..n]), rest[n..]))
      case None => None
    else if wireType == 5 then
      if |s| < 4 then None else Some((Fixed32Value(s[..4]), s[4..]))
    else None
  }

  function ReadRecord(s: seq<byte>): (r: Option<(Record, seq<byte>)>)
    ensures r.Some? ==> |r.value.1| < |s|
  {
    match ReadVarint(s, 0)
    case None => None
    case Some((tag, rest)) =>
      if tag / 8 < 1 || tag / 8 > MAX_FIELD_NUMBER then None
      else
        match ReadValue(tag % 8, rest)
        case Some((v, rest')) => Some((Record(tag / 8, v), rest'))
        case None => None
  }

  function ReadRecords(s: seq<byte>): Option<seq<Record>>
    decreases |s|
  {
    if s == [] then Some([])
    else
      match ReadRecord(s)
      case None => None
      case Some((r, rest)) =>
        match ReadRecords(rest)
        case Some(rs) => Some([r] + rs)
        case None => None
  }

  // ---- Encoding ----

  /** The length of a Go slice is an int. */
  const MAX_INT: nat := 0x7FFF_FFFF_FFFF_FFFF

  /** What the encoder emits: a varint or length-delimited record of one of the fields 1 to 11. */
  predicate Emitted(r: Record)
  {
    && 1 <= r.num <= 11
    && (|| (r.value.VarintValue? && r.value.n < 0x1_0000_0000)
        || (r.value.BytesValue? && |r.value.b| <= MAX_INT))
  }

  function EncodeRecord(r: Record): seq<byte>
    requires Emitted(r)
  {
    match r.value
    case VarintValue(n) => [8 * r.num] + Varint(n)
    case BytesValue(b) => [8 * r.num + 2] + Varint(|b|) + b
  }

  predicate AllEmitted(rs: seq<Record>)
  {
    forall r :: r in rs ==> Emitted(r)
  }

  function EncodeRecords(rs: seq<Record>): seq<byte>
    requires AllEmitted(rs)
  {
    if rs == [] then [] else EncodeRecord(rs[0]) + EncodeRecords(rs[1..])
  }

  function UintRecord(num: nat, n: u32): (rs: seq<Record>)
    ensures 1 <= num <= 11 ==> AllEmitted(rs)
  {
    if n == 0 then [] else [Record(num, VarintValue(n))]
  }

  function BytesRecord(num: nat, b: seq<byte>): (rs: seq<Record>)
    ensures 1 <= num <= 11 && |b| <= MAX_INT ==> AllEmitted(rs)
  {
    if b == [] then [] else [Record(num, BytesValue(b))]
  }

  /** Every byte field is a Go slice. */
  predicate GoMessage(m: MeshMessage)
  {
    && |m.origin| <= MAX_INT && |m.target| <= MAX_INT && |m.lastHop| <= MAX_INT
    && |m.data| <= MAX_INT && |m.publicKey| <= MAX_INT
  }

  /** The records of a message in field order; fields at their default are omitted. */
  function Records(m: MeshMessage): (rs: seq<Record>)
    ensures GoMessage(m) ==> AllEmitted(rs)
  {
    hide UintRecord, BytesRecord, Emitted;
    UintRecord(1, m.messageType) + UintRecord(2, ZigZag(m.dataType)) + BytesRecord(3, m.origin)
    + BytesRecord(4, m.target) + BytesRecord(5, m.lastHop) + BytesRecord(6, m.data)
    + UintRecord(7, m.hopCount) + UintRecord(8, m.epochNum) + UintRecord(9, m.seqNum)
    + UintRecord(10, m.protoVersion) + BytesRecord(11, m.publicKey)
  }

  /** proto.Marshal. */
  function Encode(m: MeshMessage): seq<byte>
    requires GoMessage(m)
  {
    EncodeRecords(Records(m))
  }

  // ---- Decoding ----

  /** One record merged into a message: the last one wins, unknown fields and wire types are skipped. */
  function Merge(m: MeshMessage, r: Record): MeshMessage
  {
    match r.value
    case VarintValue(n) =>
      var u: u32 := n % 0x1_0000_0000;
      if r.num == 1 then m.(messageType := u)
      else if r.num == 2 then m.(dataType := UnZigZag(u))
      else if r.num == 7 then m.(hopCount := u)
      else if r.num == 8 then m.(epochNum := u)
      else if r.num == 9 then m.(seqNum := u)
      else if r.num == 10 then m.(protoVersion := u)
      else m
    case BytesValue(b) =>
      if r.num == 3 then m.(origin := b)
      else if r.num == 4 then m.(target := b)
      else if r.num == 5 then m.(lastHop := b)
      else if r.num == 6 then m.(data := b)
      else if r.num == 11 then m.(publicKey := b)
      else m
    case _ => m
  }

  /** Of two records of one field the last one counts; a field number beyond 11 does not. */
  lemma MergeOverrides(m: MeshMessage, r: Record, r': Record)
    requires r.num == r'.num && (r.value.VarintValue? <==> r'.value.VarintValue?)
    requires r.value.BytesValue? <==> r'.value.BytesValue?
    ensures Merge(Merge(m, r), r') == Merge(m, r')
    ensures r.num < 1 || r.num > 11 ==> Merge(m, r) == m
  {
  }

  function MergeAll(m: MeshMessage, rs: seq<Record>): MeshMessage
    decreases rs
  {
    if rs == [] then m else MergeAll(Merge(m, rs[0]), rs[1..])
  }

  /** proto.Unmarshal: None for malformed input. */
  function Decode(s: seq<byte>): Option<MeshMessage>
  {
    match ReadRecords(s)
    case Some(rs) => Some(MergeAll(DEFAULT, rs))
    case None => None
  }

  // ---- Round trip ----

  lemma ReadLength(n: nat, rest: seq<byte>)
    requires n <= MAX_INT
    ensures ReadVarint(Varint(n) + rest, 0) == Some((n, rest))
  {
    hide Varint, ReadVarint;
    Powers();
    VarintSize(n, 9);
    VarintRoundTrip(n, rest, 0);
  }

  lemma ReadTag(tag: byte, rest: seq<byte>)
    requires tag < 128
    ensures ReadVarint([tag] + rest, 0) == Some((tag as nat, rest))
  {
    assert ([tag] + rest)[1..] == rest;
  }

  lemma RecordRoundTrip(r: Record, rest: seq<byte>)
    requires Emitted(r)
    ensures ReadRecord(EncodeRecord(r) + rest) == Some((r, rest))
  {
    hide Varint, ReadVarint;
    match r.value
    case VarintValue(n) =>
      ConcatAssociative([8 * r.num], Varint(n), rest);
      ReadTag(8 * r.num, Varint(n) + rest);
      ReadLength(n, rest);
    case BytesValue(b) =>
      var tail := Varint(|b|) + (b + rest);
      assert EncodeRecord(r) + rest == [8 * r.num + 2] + tail;
      ReadTag(8 * r.num + 2, tail);
      ReadLength(|b|, b + rest);
      assert (b + rest)[..|b|] == b && (b + rest)[|b|..] == rest;
  }

  lemma {:induction false} RecordsRoundTrip(rs: seq<Record>)
    requires AllEmitted(rs)
    ensures ReadRecords(EncodeRecords(rs)) == Some(rs)
  {
    hide ReadRecord, EncodeRecord;
    if rs == [] {
    } else {
      RecordsRoundTrip(rs[1..]);
      RecordRoundTrip(rs[0], EncodeRecords(rs[1..]));
      EncodeRecordNonempty(rs[0]);
      assert rs == [rs[0]] + rs[1..];
    }
  }

  lemma EncodeRecordNonempty(r: Record)
    requires Emitted(r)
    ensures EncodeRecord(r) != []
  {
  }

  lemma {:induction false} MergeAllAppend(m: MeshMessage, a: seq<Record>, b: seq<Record>)
    ensures MergeAll(m, a + b) == MergeAll(MergeAll(m, a), b)
    decreases a
  {
    hide Merge;
    if a == [] {
      assert a + b == b;
    } else {
      MergeAllAppend(Merge(m, a[0]), a[1..], b);
      assert (a + b)[1..] == a[1..] + b;
    }
  }

  lemma MergeUint(m: MeshMessage, num: nat, n: u32)
    ensures MergeAll(m, UintRecord(num, n)) == if n == 0 then m else Merge(m, Record(num, VarintValue(n)))
  {
    hide Merge;
    if n != 0 {
      var rs := UintRecord(num, n);
      assert rs[1..] == [];
    }
  }

  lemma MergeBytes(m: MeshMessage, num: nat, b: seq<byte>)
    ensures MergeAll(m, BytesRecord(num, b)) == if b == [] then m else Merge(m, Record(num, BytesValue(b)))
  {
    hide Merge;
    if b != [] {
      var rs := BytesRecord(num, b);
      assert rs[1..] == [];
    }
  }

  lemma MergeRecords(m: MeshMessage)
    ensures MergeAll(DEFAULT, Records(m)) == m
  {
    hide MergeAll, UintRecord, BytesRecord, UnZigZag, ZigZag;
    var p1 := UintRecord(1, m.messageType);
    var p2 := p1 + UintRecord(2, ZigZag(m.dataType));
    var p3 := p2 + BytesRecord(3, m.origin);
    var p4 := p3 + BytesRecord(4, m.target);
    var p5 := p4 + BytesRecord(5, m.lastHop);
    var p6 := p5 + BytesRecord(6, m.data);
    var p7 := p6 + UintRecord(7, m.hopCount);
    var p8 := p7 + UintRecord(8, m.epochNum);
    var p9 := p8 + UintRecord(9, m.seqNum);
    var p10 := p9 + UintRecord(10, m.protoVersion);
    var m1 := DEFAULT.(messageType := m.messageType);
    assert MergeAll(DEFAULT, p1) == m1 by { MergeUint(DEFAULT, 1, m.messageType); }
    var m2 := m1.(dataType := m.dataType);
    assert MergeAll(DEFAULT, p2) == m2 by {
      MergeAllAppend(DEFAULT, p1, UintRecord(2, ZigZag(m.dataType)));
      MergeUint(m1, 2, ZigZag(m.dataType));
      ZigZagInverse(m.dataType, 0);
      ZigZagZero(m.dataType);
    }
    var m3 := m2.(origin := m.origin);
    assert MergeAll(DEFAULT, p3) == m3 by {
      MergeAllAppend(DEFAULT, p2, BytesRecord(3, m.origin));
      MergeBytes(m2, 3, m.origin);
    }
    var m4 := m3.(target := m.target);
    assert MergeAll(DEFAULT, p4) == m4 by {
      MergeAllAppend(DEFAULT, p3, BytesRecord(4, m.target));
      MergeBytes(m3, 4, m.target);
    }
    var m5 := m4.(lastHop := m.lastHop);
    assert MergeAll(DEFAULT, p5) == m5 by {
      MergeAllAppend(DEFAULT, p4, BytesRecord(5, m.lastHop));
      MergeBytes(m4, 5, m.lastHop);
    }
    var m6 := m5.(data := m.data);
    assert MergeAll(DEFAULT, p6) == m6 by {
      MergeAllAppend(DEFAULT, p5, BytesRecord(6, m.data));
      MergeBytes(m5, 6, m.data);
    }
    var m7 := m6.(hopCount := m.hopCount);
    assert MergeAll(DEFAULT, p7) == m7 by {
      MergeAllAppend(DEFAULT, p6, UintRecord(7, m.hopCount));
      MergeUint(m6, 7, m.hopCount);
    }
    var m8 := m7.(epochNum := m.epochNum);
    assert MergeAll(DEFAULT, p8) == m8 by {
      MergeAllAppend(DEFAULT, p7, UintRecord(8, m.epochNum));
      MergeUint(m7, 8, m.epochNum);
    }
    var m9 := m8.(seqNum := m.seqNum);
    assert MergeAll(DEFAULT, p9) == m9 by {
      MergeAllAppend(DEFAULT, p8, UintRecord(9, m.seqNum));
      MergeUint(m8, 9, m.seqNum);
    }
    var m10 := m9.(protoVersion := m.protoVersion);
    assert MergeAll(DEFAULT, p10) == m10 by {
      MergeAllAppend(DEFAULT, p9, UintRecord(10, m.protoVersion));
      MergeUint(m9, 10, m.protoVersion);
    }
    MergeAllAppend(DEFAULT, p10, BytesRecord(11, m.publicKey));
    MergeBytes(m10, 11, m.publicKey);
  }

  lemma ZigZagZero(n: i32)
    ensures ZigZag(n) == 0 <==> n == 0
  {
  }

  /** The decoder is inverse to the encoder on every message. */
  lemma RoundTrip(m: MeshMessage)
    requires GoMessage(m)
    ensures Decode(Encode(m)) == Some(m)
  {
    hide ReadRecords, MergeAll, EncodeRecords;
    RecordsRoundTrip(Records(m));
    MergeRecords(m);
  }

  /** No two messages share an encoding, and only the all-default message encodes to nothing. */
  lemma EncodeInjective(a: MeshMessage, b: MeshMessage)
    requires GoMessage(a) && GoMessage(b)
    ensures Encode(a) == Encode(b) <==> a == b
    ensures Encode(a) == [] <==> a == DEFAULT
  {
    hide Decode, Encode;
    RoundTrip(a);
    RoundTrip(b);
    RoundTrip(DEFAULT);
    DefaultEncoding();
  }

  lemma DefaultEncoding()
    ensures Encode(DEFAULT) == []
  {
  }

  // ---- The bytes of a message ----

  /** A varint field behind its tag byte. */
  function UintField(tag: byte, n: u32): (s: seq<byte>)
    ensures |s| == UintSize(n)
  {
    if n == 0 then [] else [tag] + Varint(n)
  }

  function BytesField(tag: byte, b: seq<byte>): (s: seq<byte>)
    ensures |s| == BytesSize(b)
  {
    if b == [] then [] else [tag] + Varint(|b|) + b
  }

  /** The fields in order, each behind eight times its number plus its wire type, those at their default left out. */
  lemma EncodeLayout(m: MeshMessage)
    requires GoMessage(m)
    ensures Encode(m) ==
            UintField(0x08, m.messageType) + UintField(0x10, ZigZag(m.dataType)) + BytesField(0x1A, m.origin)
            + BytesField(0x22, m.target) + BytesField(0x2A, m.lastHop) + BytesField(0x32, m.data)
            + UintField(0x38, m.hopCount) + UintField(0x40, m.epochNum) + UintField(0x48, m.seqNum)
            + UintField(0x50, m.protoVersion) + BytesField(0x5A, m.publicKey)
  {
    hide UintRecord, BytesRecord, UintField, BytesField, EncodeRecords, ZigZag, AllEmitted;
    UintBytes(1, m.messageType);
    var p := UintRecord(1, m.messageType);
    p := LayUint(p, 2, ZigZag(m.dataType));
    p := LayBytes(p, 3, m.origin);
    p := LayBytes(p, 4, m.target);
    p := LayBytes(p, 5, m.lastHop);
    p := LayBytes(p, 6, m.data);
    p := LayUint(p, 7, m.hopCount);
    p := LayUint(p, 8, m.epochNum);
    p := LayUint(p, 9, m.seqNum);
    p := LayUint(p, 10, m.protoVersion);
    p := LayBytes(p, 11, m.publicKey);
  }

  lemma {:induction false} EncodeRecordsAppend(a: seq<Record>, b: seq<Record>)
    requires AllEmitted(a + b) && AllEmitted(a) && AllEmitted(b)
    ensures EncodeRecords(a + b) == EncodeRecords(a) + EncodeRecords(b)
  {
    hide EncodeRecord;
    if a == [] {
      assert a + b == b;
    } else {
      assert (a + b)[1..] == a[1..] + b;
      EncodeRecordsAppend(a[1..], b);
      ConcatAssociative(EncodeRecord(a[0]), EncodeRecords(a[1..]), EncodeRecords(b));
    }
  }

  lemma UintBytes(num: nat, n: u32)
    requires 1 <= num <= 11
    ensures AllEmitted(UintRecord(num, n)) && EncodeRecords(UintRecord(num, n)) == UintField(8 * num, n)
  {
    hide Varint;
    if n != 0 {
      var rs := UintRecord(num, n);
      assert rs[1..] == [];
    }
  }

  lemma BytesBytes(num: nat, b: seq<byte>)
    requires 1 <= num <= 11 && |b| <= MAX_INT
    ensures AllEmitted(BytesRecord(num, b)) && EncodeRecords(BytesRecord(num, b)) == BytesField(8 * num + 2, b)
  {
    hide Varint;
    if b != [] {
      var rs := BytesRecord(num, b);
      assert rs[1..] == [];
    }
  }

  lemma LayUint(p: seq<Record>, num: nat, n: u32) returns (q: seq<Record>)
    requires AllEmitted(p) && 1 <= num <= 11
    ensures q == p + UintRecord(num, n) && AllEmitted(q)
    ensures EncodeRecords(q) == EncodeRecords(p) + UintField(8 * num, n)
  {
    hide UintRecord, UintField, EncodeRecords, Emitted;
    q := p + UintRecord(num, n);
    UintBytes(num, n);
    EncodeRecordsAppend(p, UintRecord(num, n));
  }

  lemma LayBytes(p: seq<Record>, num: nat, b: seq<byte>) returns (q: seq<Record>)
    requires AllEmitted(p) && 1 <= num <= 11 && |b| <= MAX_INT
    ensures q == p + BytesRecord(num, b) && AllEmitted(q)
    ensures EncodeRecords(q) == EncodeRecords(p) + BytesField(8 * num + 2, b)
  {
    hide BytesRecord, BytesField, EncodeRecords, Emitted;
    q := p + BytesRecord(num, b);
    BytesBytes(num, b);
    EncodeRecordsAppend(p, BytesRecord(num, b));
  }

  // ---- Sizes ----

  function UintSize(n: u32): nat
  {
    if n == 0 then 0 else 1 + |Varint(n)|
  }

  function BytesSize(b: seq<byte>): nat
  {
    if b == [] then 0 else 1 + |Varint(|b|)| + |b|
  }

  function Size(m: MeshMessage): nat
  {
    UintSize(m.messageType) + UintSize(ZigZag(m.dataType)) + BytesSize(m.origin) + BytesSize(m.target)
    + BytesSize(m.lastHop) + BytesSize(m.data) + UintSize(m.hopCount) + UintSize(m.epochNum)
    + UintSize(m.seqNum) + UintSize(m.protoVersion) + BytesSize(m.publicKey)
  }

  lemma SizeExact(m: MeshMessage)
    requires GoMessage(m)
    ensures |Encode(m)| == Size(m)
  {
    hide Varint, Encode, ZigZag, UintField, BytesField, UintSize, BytesSize;
    EncodeLayout(m);
  }
}
