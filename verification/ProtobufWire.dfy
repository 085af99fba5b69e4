/** Base-128 varints and field skipping: the byte-level half of utils/protobuf.rs.

    Words are bit-vectors, so the loops use the program's own `&`, `|`, `<<` and `>>`.
    Specification functions look at the bytes that remain from an offset on; the
    methods take the whole slice and an offset, as the program does. */
module ProtobufWire {
  import opened Wrappers

  type byte = bv8
  type bytes = seq<byte>

  /** One constructor for each error string of the program. */
  datatype WireError =
    | DataNotComplete
    | VarintTooLarge
    | Incomplete64Bit
    | LengthOverflow
    | IncompleteLengthDelimited
    | Incomplete32Bit
    | UnknownWireType(wireType: byte)
    | TruncatedFieldData

  /** A Rust allocation never exceeds isize::MAX bytes; usize is 64 bits wide. */
  const ISIZE_MAX: nat := 0x7FFF_FFFF_FFFF_FFFF
  const USIZE_MAX: nat := 0xFFFF_FFFF_FFFF_FFFF

  // ---------- u64 <-> usize ----------

  /** The number a word denotes. */
  function WordToNat(v: bv64): nat {
    if v == 0 then 0 else (if v & 1 == 1 then 1 else 0) + 2 * WordToNat(v >> 1)
  }

  /** The word reached from zero by `n` increments. */
  function NatToWord(n: nat): bv64 {
    if n == 0 then 0 else NatToWord(n - 1) + 1
  }

  lemma OddSuccessor(v: bv64)
    requires v & 1 == 1 && v != 0xFFFF_FFFF_FFFF_FFFF
    ensures (v + 1) >> 1 == (v >> 1) + 1 && (v + 1) & 1 != 1 && v + 1 != 0
    ensures v >> 1 != 0xFFFF_FFFF_FFFF_FFFF
  {}

  lemma EvenSuccessor(v: bv64)
    requires v & 1 != 1
    ensures (v + 1) >> 1 == v >> 1 && (v + 1) & 1 == 1 && v + 1 != 0
  {}

  lemma UnfoldWord(v: bv64)
    requires v != 0
    ensures WordToNat(v) == (if v & 1 == 1 then 1 else 0) + 2 * WordToNat(v >> 1)
  {}

  lemma {:induction false} WordSuccessor(v: bv64, w: bv64)
    requires v != 0xFFFF_FFFF_FFFF_FFFF && w == v + 1
    ensures WordToNat(w) == WordToNat(v) + 1
    decreases WordToNat(v)
  {
    if v & 1 == 1 {
      OddSuccessor(v);
      UnfoldWord(v);
      WordSuccessor(v >> 1, w >> 1);
      UnfoldWord(w);
    } else {
      EvenSuccessor(v);
      UnfoldWord(w);
      if v != 0 {
        UnfoldWord(v);
      }
    }
  }

  lemma LowByteOfWord(v: bv64)
    requires v & 0xFF == 0xFF
    ensures WordToNat(v) == 0xFF + 0x100 * WordToNat(v >> 8)
  {
    assert WordToNat(v) == 3 + 4 * WordToNat(v >> 2);
    assert WordToNat(v >> 2) == 3 + 4 * WordToNat(v >> 4);
    assert WordToNat(v >> 4) == 3 + 4 * WordToNat(v >> 6);
    assert WordToNat(v >> 6) == 3 + 4 * WordToNat(v >> 8);
  }

  lemma LargestWord()
    ensures WordToNat(0xFFFF_FFFF_FFFF_FFFF) == USIZE_MAX
  {
    LowByteOfWord(0xFF);
    LowByteOfWord(0xFFFF);
    LowByteOfWord(0xFF_FFFF);
    LowByteOfWord(0xFFFF_FFFF);
    LowByteOfWord(0xFF_FFFF_FFFF);
    LowByteOfWord(0xFFFF_FFFF_FFFF);
    LowByteOfWord(0xFF_FFFF_FFFF_FFFF);
    LowByteOfWord(0xFFFF_FFFF_FFFF_FFFF);
  }

  /** Casting a buffer length to u64 and back loses nothing. */
  lemma {:induction false} LengthCastRoundTrip(n: nat)
    requires n <= USIZE_MAX
    ensures WordToNat(NatToWord(n)) == n
  {
    if n > 0 {
      LengthCastRoundTrip(n - 1);
      LargestWord();
      WordSuccessor(NatToWord(n - 1), NatToWord(n));
    }
  }

  /** A word read from bytes, and the offset just past it. */
  datatype Decoded = Decoded(value: bv64, end: nat)

  // ---------- Varints: what the bytes mean ----------

  /** The continuation bit. */
  predicate Continues(b: byte) {
    b & 0x80 != 0
  }

  function Payload(b: byte): bv64 {
    (b & 0x7F) as bv64
  }

  /** Least significant group first; groups past bit 63 fall off, as they do in a u64. */
  function VarintValue(s: bytes): bv64 {
    if s == [] then 0 else Payload(s[0]) | (VarintValue(s[1..]) << 7)
  }

  /** A complete varint: only its last byte has the continuation bit clear, at most ten bytes. */
  predicate IsVarint(s: bytes) {
    && 1 <= |s| <= 10
    && !Continues(s[|s| - 1])
    && forall i | 0 <= i < |s| - 1 :: Continues(s[i])
  }

  function LeadingContinuations(s: bytes): (n: nat)
    ensures n <= |s|
    ensures forall i | 0 <= i < n :: Continues(s[i])
    ensures n < |s| ==> !Continues(s[n])
  {
    if s == [] || !Continues(s[0]) then 0 else 1 + LeadingContinuations(s[1..])
  }

  lemma {:induction false} LeadingContinuationsUnique(s: bytes, n: nat)
    requires n <= |s|
    requires forall i | 0 <= i < n :: Continues(s[i])
    requires n < |s| ==> !Continues(s[n])
    ensures LeadingContinuations(s) == n
  {
    if n > 0 {
      assert forall i | 0 <= i < n - 1 :: Continues(s[1..][i]) by {
        assert forall i | 0 <= i < n - 1 :: s[1..][i] == s[i + 1];
      }
      assert n < |s| ==> s[1..][n - 1] == s[n];
      LeadingContinuationsUnique(s[1..], n - 1);
    }
  }

  /** The varint at the front of `s`: its value and its size. */
  function VarintAt(s: bytes): (r: Result<Decoded, WireError>)
    ensures r.Success? ==> 1 <= r.value.end <= |s| && r.value.end <= 10
    ensures r.Failure? ==> r.error == DataNotComplete || r.error == VarintTooLarge
  {
    var k := LeadingContinuations(s);
    if k < |s| && k < 10 then Success(Decoded(VarintValue(s[..k + 1]), k + 1))
    else if |s| <= 10 then Failure(DataNotComplete)
    else Failure(VarintTooLarge)
  }

  /** Success is exactly: a prefix of `s` is a varint. The error tells which way it is missing. */
  lemma VarintAtMeaning(s: bytes, n: nat)
    requires n <= |s|
    ensures IsVarint(s[..n]) <==> VarintAt(s).Success? && VarintAt(s).value.end == n
    ensures IsVarint(s[..n]) ==> VarintAt(s) == Success(Decoded(VarintValue(s[..n]), n))
    ensures VarintAt(s) == Failure(DataNotComplete) <==> |s| <= 10 && forall i | 0 <= i < |s| :: Continues(s[i])
    ensures VarintAt(s) == Failure(VarintTooLarge) <==> |s| > 10 && forall i | 0 <= i < 10 :: Continues(s[i])
  {
    if IsVarint(s[..n]) {
      assert forall i | 0 <= i < n - 1 :: Continues(s[i]) by {
        assert forall i | 0 <= i < n - 1 :: s[..n][i] == s[i];
      }
      LeadingContinuationsUnique(s, n - 1);
    }
  }

  /** Bytes after the varint do not matter. */
  lemma VarintAtStable(s: bytes, t: bytes)
    requires VarintAt(s).Success?
    ensures VarintAt(s + t) == VarintAt(s)
  {
    var k := LeadingContinuations(s);
    LeadingContinuationsUnique(s + t, k);
    assert (s + t)[..k + 1] == s[..k + 1];
  }

  lemma VarintAtPrefix(s: bytes, m: nat)
    requires VarintAt(s).Success? && VarintAt(s).value.end <= m <= |s|
    ensures VarintAt(s[..m]) == VarintAt(s)
  {
    var k := LeadingContinuations(s);
    LeadingContinuationsUnique(s[..m], k);
    assert s[..m][..k + 1] == s[..k + 1];
  }

  // ---------- Reading ----------

  /** 7 * n, the shift of the n-th group. */
  function GroupShift(n: nat): bv64
    requires n <= 10
  {
    if n == 0 then 0 else GroupShift(n - 1) + 7
  }

  lemma GroupShiftTable(n: nat)
    requires n <= 10
    ensures n <= 9 <==> GroupShift(n) < 64
    ensures 1 <= n <= 9 ==>
      GroupShift(n) == GroupShift(n - 1) + 7 && GroupShift(n - 1) in {0, 7, 14, 21, 28, 35, 42, 49, 56}
  {
    assert GroupShift(2) == 14 && GroupShift(4) == 28 && GroupShift(6) == 42;
    assert GroupShift(8) == 56 && GroupShift(9) == 63 && GroupShift(10) == 70;
    assert GroupShift(1) == 7 && GroupShift(3) == 21 && GroupShift(5) == 35 && GroupShift(7) == 49;
  }

  /** A shift by `n` groups, one group at a time. */
  function ShiftGroups(x: bv64, n: nat): bv64 {
    if n == 0 then x else ShiftGroups(x, n - 1) << 7
  }

  lemma {:induction false} ShiftGroupsMeaning(x: bv64, n: nat, shift: bv64)
    requires n <= 9 && shift == GroupShift(n) < 64
    ensures ShiftGroups(x, n) == x << shift
  {
    if n == 0 {
      NoShift(x);
    } else {
      GroupShiftTable(n);
      ShiftGroupsMeaning(x, n - 1, GroupShift(n - 1));
      OneMoreGroup(x, GroupShift(n - 1), shift);
    }
  }

  lemma NoShift(x: bv64)
    ensures x << 0 == x
  {}

  lemma OneMoreGroup(x: bv64, k: bv64, k': bv64)
    requires k in {0, 7, 14, 21, 28, 35, 42, 49, 56} && k' == k + 7
    ensures (x << k) << 7 == x << k'
  {
    if k == 0 {
      assert (x << 0) << 7 == x << 7;
    } else if k == 7 {
      assert (x << 7) << 7 == x << 14;
    } else if k == 14 {
      assert (x << 14) << 7 == x << 21;
    } else if k == 21 {
      assert (x << 21) << 7 == x << 28;
    } else if k == 28 {
      assert (x << 28) << 7 == x << 35;
    } else if k == 35 {
      assert (x << 35) << 7 == x << 42;
    } else if k == 42 {
      assert (x << 42) << 7 == x << 49;
    } else if k == 49 {
      assert (x << 49) << 7 == x << 56;
    } else if k == 56 {
      assert (x << 56) << 7 == x << 63;
    }
  }

  lemma PushGroup(head: bv64, acc: bv64, group: bv64)
    ensures head | ((acc | group) << 7) == (head | (acc << 7)) | (group << 7)
  {}

  lemma VarintValueCons(b: byte, s: bytes)
    ensures VarintValue([b] + s) == Payload(b) | (VarintValue(s) << 7)
    ensures VarintValue([]) == 0
  {
    assert ([b] + s)[1..] == s;
  }

  lemma OrZero(v: bv64)
    ensures v | (0 << 7) == v && 0 | v == v
  {}

  /** The accumulating loop's step: one more group, shifted past the earlier ones. */
  lemma {:induction false} VarintValueSnoc(s: bytes, b: byte)
    ensures VarintValue(s + [b]) == VarintValue(s) | ShiftGroups(Payload(b), |s|)
  {
    hide VarintValue, Payload;
    if s == [] {
      assert s + [b] == [b] + [];
      VarintValueCons(b, []);
      OrZero(Payload(b));
    } else {
      var tail := s[1..];
      VarintValueSnoc(tail, b);
      VarintValueCons(s[0], tail);
      VarintValueCons(s[0], tail + [b]);
      assert s == [s[0]] + tail && s + [b] == [s[0]] + (tail + [b]);
      PushGroup(Payload(s[0]), VarintValue(tail), ShiftGroups(Payload(b), |tail|));
    }
  }

  function Shifted(r: Result<Decoded, WireError>, offset: nat): Result<Decoded, WireError> {
    match r
    case Success(d) => Success(Decoded(d.value, offset + d.end))
    case Failure(e) => Failure(e)
  }

  /** The bytes from an offset on; none when the offset is past the end. */
  function Rest(data: bytes, offset: nat): bytes {
    if offset <= |data| then data[offset..] else []
  }

  /** The first `n` bytes carry on, and `result` and `shift` are what the loop holds after them. */
  ghost predicate ReadSoFar(rest: bytes, n: nat, result: bv64, shift: bv64) {
    && n <= |rest| && n <= 10
    && (forall i | 0 <= i < n :: Continues(rest[i]))
    && result == VarintValue(rest[..n])
    && shift == GroupShift(n)
  }

  lemma Accumulated(s: bytes, b: byte, shift: bv64, acc: bv64, next: bv64)
    requires |s| <= 9 && shift == GroupShift(|s|) < 64
    requires acc == VarintValue(s) && next == acc | (Payload(b) << shift)
    ensures VarintValue(s + [b]) == next
  {
    hide *;
    VarintValueSnoc(s, b);
    ShiftGroupsMeaning(Payload(b), |s|, shift);
  }

  lemma ReadStep(rest: bytes, n: nat, b: byte, result: bv64, shift: bv64, next: bv64)
    requires ReadSoFar(rest, n, result, shift) && n < |rest| && shift < 64
    requires b == rest[n] && next == result | (Payload(b) << shift)
    ensures if Continues(b) then ReadSoFar(rest, n + 1, next, shift + 7)
            else VarintAt(rest) == Success(Decoded(next, n + 1))
  {
    hide VarintValue, Payload;
    GroupShiftTable(n);
    assert rest[..n + 1] == rest[..n] + [b];
    Accumulated(rest[..n], b, shift, result, next);
    if !Continues(b) {
      LeadingContinuationsUnique(rest, n);
    }
  }

  lemma ReadFails(rest: bytes, n: nat, result: bv64, shift: bv64)
    requires ReadSoFar(rest, n, result, shift)
    ensures n == |rest| ==> VarintAt(rest) == Failure(DataNotComplete)
    ensures n < |rest| && shift >= 64 ==> VarintAt(rest) == Failure(VarintTooLarge)
    ensures n <= |rest|
  {
    GroupShiftTable(n);
    if n == |rest| {
      LeadingContinuationsUnique(rest, n);
    }
  }

  lemma ReadStarts(data: bytes, offset: nat)
    ensures ReadSoFar(Rest(data, offset), 0, 0, 0)
    ensures offset <= |data| ==> |data| == offset + |Rest(data, offset)|
    ensures offset > |data| ==> |Rest(data, offset)| == 0
    ensures forall i | 0 <= i < |Rest(data, offset)| :: data[offset + i] == Rest(data, offset)[i]
  {}

  method ReadVarint(data: bytes, offset: nat) returns (r: Result<Decoded, WireError>)
    ensures r == Shifted(VarintAt(Rest(data, offset)), offset)
    ensures r.Success? ==> offset < r.value.end <= |data|
  {
    hide ReadSoFar, VarintAt, Payload, Continues, Rest;
    var result: bv64 := 0;
    var shift: bv64 := 0;
    var pos := offset;
    ghost var rest := Rest(data, offset);
    ReadStarts(data, offset);
    while true
      invariant offset <= pos <= offset + |rest|
      invariant ReadSoFar(rest, pos - offset, result, shift)
      decreases offset + |rest| - pos
    {
      ReadFails(rest, pos - offset, result, shift);
      if pos >= |data| {
        return Failure(DataNotComplete);
      }
      if shift >= 64 {
        return Failure(VarintTooLarge);
      }
      var b := data[pos];
      assert b == rest[pos - offset];
      var next := result | (Payload(b) << shift);
      ReadStep(rest, pos - offset, b, result, shift, next);
      result := next;
      pos := pos + 1;
      if !Continues(b) {
        break;
      }
      shift := shift + 7;
    }
    return Success(Decoded(result, pos));
  }

  // ---------- Encoding ----------

  /** The encoding of a word: its 7-bit groups, every one but the last marked as continued. */
  function Varint(v: bv64): bytes {
    if v < 0x80 then [v as byte] else [((v & 0x7F) | 0x80) as byte] + Varint(v >> 7)
  }

  method EncodeVarint(value: bv64) returns (buf: bytes)
    ensures buf == Varint(value)
  {
    var v := value;
    buf := [];
    while v >= 0x80
      invariant buf + Varint(v) == Varint(value)
      decreases |Varint(v)|
    {
      buf := buf + [((v & 0x7F) | 0x80) as byte];
      v := v >> 7;
    }
    buf := buf + [v as byte];
  }

  /** The Encoding specification's own examples, "Base 128 Varints". */
  lemma VarintExamples()
    ensures Varint(1) == [0x01] && Varint(150) == [0x96, 0x01]
    ensures VarintAt([0x96, 0x01]) == Success(Decoded(150, 2))
  {
    assert Varint(1) == [0x01];
    VarintRoundTrip(150, []);
    assert Varint(150) + [] == Varint(150);
  }

  lemma GroupSplit(v: bv64)
    ensures (v & 0x7F) | ((v >> 7) << 7) == v
    ensures v < 0x80 ==> Payload(v as byte) == v && !Continues(v as byte)
    ensures var b := ((v & 0x7F) | 0x80) as byte; Payload(b) == v & 0x7F && Continues(b)
  {}

  lemma OneGroup(v: bv64)
    ensures 1 <= |Varint(v)| <= 1 + |Varint(v >> 7)|
    ensures v < 0x80 ==> |Varint(v)| == 1
  {}

  lemma NinthShift(v: bv64)
    ensures v >> 7 >> 7 >> 7 >> 7 >> 7 >> 7 >> 7 >> 7 >> 7 < 0x80
  {}

  /** One to ten bytes for every u64. */
  lemma VarintSize(v: bv64)
    ensures 1 <= |Varint(v)| <= 10
  {
    var v1 := v >> 7;
    var v2 := v1 >> 7;
    var v3 := v2 >> 7;
    var v4 := v3 >> 7;
    var v5 := v4 >> 7;
    var v6 := v5 >> 7;
    var v7 := v6 >> 7;
    var v8 := v7 >> 7;
    NinthShift(v);
    OneGroup(v);
    OneGroup(v1);
    OneGroup(v2);
    OneGroup(v3);
    OneGroup(v4);
    OneGroup(v5);
    OneGroup(v6);
    OneGroup(v7);
    OneGroup(v8);
    OneGroup(v8 >> 7);
  }

  lemma {:induction false} VarintShape(v: bv64)
    ensures var e := Varint(v);
      |e| >= 1 && !Continues(e[|e| - 1]) && forall i | 0 <= i < |e| - 1 :: Continues(e[i])
    decreases |Varint(v)|
  {
    GroupSplit(v);
    if v >= 0x80 {
      VarintShape(v >> 7);
    }
  }

  lemma {:induction false} VarintValueOfVarint(v: bv64)
    ensures VarintValue(Varint(v)) == v
    decreases |Varint(v)|
  {
    GroupSplit(v);
    if v < 0x80 {
      VarintValueCons(v as byte, []);
      OrZero(v);
    } else {
      VarintValueOfVarint(v >> 7);
      VarintValueCons(((v & 0x7F) | 0x80) as byte, Varint(v >> 7));
    }
  }

  /** Reading back what was written, whatever follows it. */
  lemma VarintRoundTrip(v: bv64, suffix: bytes)
    ensures VarintAt(Varint(v) + suffix) == Success(Decoded(v, |Varint(v)|))
    ensures 1 <= |Varint(v)| <= 10
  {
    var e := Varint(v);
    VarintShape(v);
    VarintValueOfVarint(v);
    VarintSize(v);
    assert (e + suffix)[..|e|] == e;
    VarintAtMeaning(e + suffix, |e|);
  }

  /** The same at the end of any prefix, through the method's own offsets. */
  lemma ReadAfterPrefix(prefix: bytes, v: bv64, suffix: bytes)
    ensures Shifted(VarintAt(Rest(prefix + Varint(v) + suffix, |prefix|)), |prefix|)
         == Success(Decoded(v, |prefix| + |Varint(v)|))
  {
    hide VarintValue, Varint;
    assert (prefix + Varint(v) + suffix)[|prefix|..] == Varint(v) + suffix;
    VarintRoundTrip(v, suffix);
  }
}
