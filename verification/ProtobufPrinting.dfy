/** An independent printer of messages, and what the scanners of utils/protobuf.rs make of its output. */
module ProtobufPrinting {
  import opened Wrappers
  import opened ProtobufWire
  import opened ProtobufRecords

  // ---------- The printer ----------

  /** A value by wire type, as in the Encoding specification, "Message Structure". */
  datatype Value =
    | Number(word: bv64)
    | Fixed64(eight: bytes)
    | Delimited(content: bytes)
    | Fixed32(four: bytes)

  predicate Printable(v: Value) {
    match v
    case Number(_) => true
    case Fixed64(eight) => |eight| == 8
    case Delimited(content) => |content| <= ISIZE_MAX
    case Fixed32(four) => |four| == 4
  }

  function KindOf(v: Value): byte {
    match v
    case Number(_) => 0
    case Fixed64(_) => 1
    case Delimited(_) => 2
    case Fixed32(_) => 5
  }

  /** What stands after the tag. */
  function PrintValue(v: Value): bytes {
    match v
    case Number(word) => Varint(word)
    case Fixed64(eight) => eight
    case Delimited(content) => Varint(NatToWord(|content|)) + content
    case Fixed32(four) => four
  }

  /** What a reader gets for it. */
  function ContentOf(v: Value): bytes {
    match v
    case Number(word) => Varint(word)
    case Fixed64(eight) => eight
    case Delimited(content) => content
    case Fixed32(four) => four
  }

  function TagOf(field: bv32, kind: byte): bv64 {
    ((field as bv64) << 3) | (kind as bv64)
  }

  datatype Field = Field(number: bv32, value: Value)

  function Print(f: Field): bytes {
    Varint(TagOf(f.number, KindOf(f.value))) + PrintValue(f.value)
  }

  function PrintAll(fs: seq<Field>): bytes {
    if fs == [] then [] else Print(fs[0]) + PrintAll(fs[1..])
  }

  // ---------- Tags ----------

  /** Every 32-bit field number and every wire type read back from a tag; bits above are dropped. */
  lemma TagReadsBack(field: bv32, kind: byte, high: bv64)
    requires kind < 8
    ensures FieldOf(TagOf(field, kind) | (high << 35)) == field
    ensures WireTypeOf(TagOf(field, kind) | (high << 35)) == kind
    ensures FieldOf(TagOf(field, kind)) == field && WireTypeOf(TagOf(field, kind)) == kind
  {}

  // ---------- One value ----------

  /** A printed value is skipped exactly, whatever follows and wherever it stands. */
  lemma ValueReadsBack(v: Value, suffix: bytes, base: nat)
    requires Printable(v)
    ensures BodyAt(PrintValue(v) + suffix, base, KindOf(v)) == Success(Body(ContentOf(v), |PrintValue(v)|))
  {
    hide Varint, VarintAt, WordToNat, NatToWord;
    match v
    case Number(word) =>
      VarintRoundTrip(word, suffix);
      assert (Varint(word) + suffix)[..|Varint(word)|] == Varint(word);
    case Fixed64(eight) => assert (eight + suffix)[..8] == eight;
    case Delimited(content) => LengthDelimitedBody(content, suffix, base);
    case Fixed32(four) => assert (four + suffix)[..4] == four;
  }

  /** Fewer bytes than a value needs give the error of its wire type, and no other wire type is read. */
  lemma ShortValueFails(s: bytes, n: nat, base: nat, kind: byte)
    requires |s| <= ISIZE_MAX
    ensures |s| < 8 ==> BodyAt(s, base, 1) == Failure(Incomplete64Bit)
    ensures |s| < 4 ==> BodyAt(s, base, 5) == Failure(Incomplete32Bit)
    ensures |s| <= 10 && (forall i | 0 <= i < |s| :: s[i] & 0x80 != 0) ==>
      BodyAt(s, base, 0) == Failure(DataNotComplete) == BodyAt(s, base, 2)
    ensures |s| > 10 && (forall i | 0 <= i < 10 :: s[i] & 0x80 != 0) ==>
      BodyAt(s, base, 0) == Failure(VarintTooLarge) == BodyAt(s, base, 2)
    ensures |s| < n <= USIZE_MAX ==>
      BodyAt(Varint(NatToWord(n)) + s, base, 2) ==
      Failure(if base + |Varint(NatToWord(n))| + n > USIZE_MAX then LengthOverflow else IncompleteLengthDelimited)
    ensures kind !in {0, 1, 2, 5} ==> BodyAt(s, base, kind) == Failure(UnknownWireType(kind))
  {
    VarintAtMeaning(s, 0);
    hide Varint, VarintAt, WordToNat, NatToWord;
    if |s| < n <= USIZE_MAX {
      VarintRoundTrip(NatToWord(n), s);
      LengthCastRoundTrip(n);
    }
  }

  // ---------- Messages ----------

  function RecordOf(f: Field): Record {
    Record(f.number, KindOf(f.value), ContentOf(f.value), Print(f))
  }

  /** A printed field reads back as that field, wire type and payload, with its exact end. */
  lemma FieldReadsBack(f: Field, suffix: bytes, base: nat)
    requires Printable(f.value)
    ensures RecordAt(Print(f) + suffix, base) == Success(Record(f.number, KindOf(f.value), ContentOf(f.value),
                                                                Print(f)))
  {
    var e, body := Varint(TagOf(f.number, KindOf(f.value))), PrintValue(f.value);
    var s := Print(f) + suffix;
    assert s == e + (body + suffix) && Print(f) == e + body;
    ValueReadsBack(f.value, suffix, base + |e|);
    TagAtFront(f.number, KindOf(f.value), body + suffix);
    hide *;
    assert s[|e|..] == body + suffix;
    assert s[..|e| + |body|] == e + body;
    RecordFromParts(s, base);
  }

  lemma TagAtFront(field: bv32, kind: byte, rest: bytes)
    requires kind < 8
    ensures var tag := TagOf(field, kind);
      && VarintAt(Varint(tag) + rest) == Success(Decoded(tag, |Varint(tag)|))
      && FieldOf(tag) == field && WireTypeOf(tag) == kind
  {
    TagReadsBack(field, kind, 0);
    VarintRoundTrip(TagOf(field, kind), rest);
  }

  predicate AllPrintable(fs: seq<Field>) {
    forall f | f in fs :: Printable(f.value)
  }

  function RecordsOf(fs: seq<Field>): seq<Record> {
    if fs == [] then [] else [RecordOf(fs[0])] + RecordsOf(fs[1..])
  }

  lemma {:induction false} PrintedRecords(fs: seq<Field>)
    requires AllPrintable(fs)
    ensures AllWellFormed(RecordsOf(fs)) && Raws(RecordsOf(fs)) == PrintAll(fs)
    ensures |RecordsOf(fs)| == |fs| && forall i | 0 <= i < |fs| :: RecordsOf(fs)[i] == RecordOf(fs[i])
  {
    hide RecordAt, Printable;
    if fs != [] {
      var f, rest := fs[0], fs[1..];
      assert f in fs && forall g | g in rest :: g in fs;
      PrintedRecords(rest);
      FieldReadsBack(f, [], 0);
      assert Print(f) + [] == Print(f);
      assert RecordsOf(fs)[1..] == RecordsOf(rest);
    }
  }

  /** A printed message parses to its fields. */
  lemma MessageReadsBack(fs: seq<Field>)
    requires AllPrintable(fs)
    ensures Parse(PrintAll(fs), 0) == Success(RecordsOf(fs))
    ensures |RecordsOf(fs)| == |fs|
    ensures forall i | 0 <= i < |fs| ::
      RecordsOf(fs)[i] == Record(fs[i].number, KindOf(fs[i].value), ContentOf(fs[i].value), Print(fs[i]))
  {
    hide Parse;
    PrintedRecords(fs);
    ParseOfRaws(RecordsOf(fs), 0);
  }

  // ---------- Removing and finding in printed messages ----------

  function Others(fs: seq<Field>, number: bv32): seq<Field> {
    if fs == [] then []
    else (if fs[0].number == number then [] else [fs[0]]) + Others(fs[1..], number)
  }

  lemma {:induction false} OthersAreWithout(fs: seq<Field>, number: bv32)
    ensures RecordsOf(Others(fs, number)) == Without(RecordsOf(fs), number)
    ensures forall f :: f in Others(fs, number) <==> f in fs && f.number != number
  {
    hide RecordOf;
    if fs != [] {
      OthersAreWithout(fs[1..], number);
      RecordOfNumber(fs[0]);
      assert fs == [fs[0]] + fs[1..];
      assert RecordsOf(fs)[1..] == RecordsOf(fs[1..]);
      var rest := Others(fs[1..], number);
      assert Others(fs, number) == if fs[0].number == number then rest else [fs[0]] + rest;
      assert ([fs[0]] + rest)[1..] == rest;
    }
  }

  lemma RecordOfNumber(f: Field)
    ensures RecordOf(f).field == f.number
  {}

  /** Removing a field from a printed message prints the others. */
  lemma RemovePrinted(fs: seq<Field>, number: bv32)
    requires AllPrintable(fs)
    ensures Removed(PrintAll(fs), number) == Success(PrintAll(Others(fs, number)))
  {
    MessageReadsBack(fs);
    OthersAreWithout(fs, number);
    PrintedRecords(Others(fs, number));
  }

  /** Field `i` is the first length-delimited one with its number. */
  predicate FirstDelimited(fs: seq<Field>, number: bv32, i: nat) {
    && i < |fs| && fs[i].number == number && fs[i].value.Delimited?
    && forall j | 0 <= j < i :: fs[j].number != number || !fs[j].value.Delimited?
  }

  lemma {:induction false} FirstContentIsFirst(rs: seq<Record>, target: bv32, i: nat)
    requires i < |rs| && Matches(rs[i], target) && forall j | 0 <= j < i :: !Matches(rs[j], target)
    ensures FirstContent(rs, target) == Some(rs[i].content)
  {
    if i > 0 {
      assert forall j | 0 <= j < i - 1 :: rs[1..][j] == rs[j + 1];
      FirstContentIsFirst(rs[1..], target, i - 1);
    }
  }

  lemma {:induction false} NoFirstContent(rs: seq<Record>, target: bv32)
    requires forall j | 0 <= j < |rs| :: !Matches(rs[j], target)
    ensures FirstContent(rs, target) == None
  {
    if rs != [] {
      assert forall j | 0 <= j < |rs| - 1 :: rs[1..][j] == rs[j + 1];
      NoFirstContent(rs[1..], target);
    }
  }

  /** Finding in a printed message yields the first length-delimited field of the number, if any. */
  lemma FindPrinted(fs: seq<Field>, number: bv32, i: nat)
    requires AllPrintable(fs)
    ensures FirstDelimited(fs, number, i) ==> FindIn(PrintAll(fs), 0, number) == Success(Some(fs[i].value.content))
    ensures (forall j | 0 <= j < |fs| :: fs[j].number != number || !fs[j].value.Delimited?) ==>
      FindIn(PrintAll(fs), 0, number) == Success(None)
  {
    var rs := RecordsOf(fs);
    MessageReadsBack(fs);
    FindOnParsed(PrintAll(fs), 0, number);
    forall j | 0 <= j < |fs| ensures Matches(rs[j], number) <==> fs[j].number == number && fs[j].value.Delimited? {
      KindTwo(fs[j].value);
    }
    hide Parse, FindIn, RecordsOf;
    if FirstDelimited(fs, number, i) {
      FirstContentIsFirst(rs, number, i);
    }
    if forall j | 0 <= j < |fs| :: fs[j].number != number || !fs[j].value.Delimited? {
      NoFirstContent(rs, number);
    }
  }

  lemma KindTwo(v: Value)
    ensures KindOf(v) == 2 <==> v.Delimited?
  {}
}
