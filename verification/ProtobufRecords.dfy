/** Messages as sequences of records: the scanning half of utils/protobuf.rs. */
module ProtobufRecords {
  import opened Wrappers
  import opened ProtobufWire

  // ---------- What a message is ----------

  /** One record: field number, wire type, payload, and the bytes it came from. */
  datatype Record = Record(field: bv32, wireType: byte, content: bytes, raw: bytes)

  /** A field's payload, and the bytes it takes up including any length prefix. */
  datatype Body = Body(content: bytes, size: nat)

  /** The cast to u32 drops the high bits of an oversized tag. */
  function FieldOf(tag: bv64): bv32 {
    ((tag >> 3) & 0xFFFF_FFFF) as bv32
  }

  function WireTypeOf(tag: bv64): byte {
    (tag & 7) as byte
  }

  function FixedBody(s: bytes, n: nat, error: WireError): Result<Body, WireError> {
    if n <= |s| then Success(Body(s[..n], n)) else Failure(error)
  }

  /** The payload at the front of `s`; `base` is the absolute position of `s` and only
      decides which of two errors an oversized length gets. */
  function BodyAt(s: bytes, base: nat, wireType: byte): (r: Result<Body, WireError>)
    ensures r.Success? ==> |r.value.content| <= r.value.size <= |s|
  {
    if wireType == 0 then
      var d :- VarintAt(s);
      Success(Body(s[..d.end], d.end))
    else if wireType == 1 then FixedBody(s, 8, Incomplete64Bit)
    else if wireType == 2 then
      var d :- VarintAt(s);
      var end := d.end + WordToNat(d.value);
      if end <= |s| then Success(Body(s[d.end..end], end))
      else if base + end > USIZE_MAX then Failure(LengthOverflow)
      else Failure(IncompleteLengthDelimited)
    else if wireType == 5 then FixedBody(s, 4, Incomplete32Bit)
    else Failure(UnknownWireType(wireType))
  }

  /** The record at the front of `s`. */
  function RecordAt(s: bytes, base: nat): (r: Result<Record, WireError>)
    ensures r.Success? ==> r.value.raw <= s && r.value.raw != []
  {
    var d :- VarintAt(s);
    var body :- BodyAt(s[d.end..], base + d.end, WireTypeOf(d.value));
    Success(Record(FieldOf(d.value), WireTypeOf(d.value), body.content, s[..d.end + body.size]))
  }

  /** The whole of `s` as records, or the first error. */
  function Parse(s: bytes, base: nat): Result<seq<Record>, WireError>
    decreases |s|
  {
    if s == [] then Success([])
    else
      var r :- RecordAt(s, base);
      var rest :- Parse(s[|r.raw|..], base + |r.raw|);
      Success([r] + rest)
  }

  function WithPrefix(done: seq<Record>, r: Result<seq<Record>, WireError>): Result<seq<Record>, WireError> {
    match r
    case Success(rs) => Success(done + rs)
    case Failure(e) => Failure(e)
  }

  lemma ParseUnfold(s: bytes, base: nat)
    ensures s == [] ==> Parse(s, base) == Success([])
    ensures s != [] ==>
      match RecordAt(s, base)
      case Failure(e) => Parse(s, base) == Failure(e)
      case Success(r) => Parse(s, base) == WithPrefix([r], Parse(s[|r.raw|..], base + |r.raw|))
  {
    hide RecordAt;
  }

  function Raws(rs: seq<Record>): bytes {
    if rs == [] then [] else rs[0].raw + Raws(rs[1..])
  }

  /** A record that its own bytes parse back to. */
  ghost predicate WellFormed(r: Record) {
    RecordAt(r.raw, 0) == Success(r)
  }

  ghost predicate AllWellFormed(rs: seq<Record>) {
    forall r | r in rs :: WellFormed(r)
  }

  // ---------- Locality: a record is determined by its own bytes ----------

  lemma BodyAtLocal(s: bytes, base: nat, wireType: byte, t: bytes, base': nat)
    requires BodyAt(s, base, wireType).Success?
    ensures BodyAt(s[..BodyAt(s, base, wireType).value.size] + t, base', wireType) == BodyAt(s, base, wireType)
  {
    hide WordToNat, VarintAt;
    var body := BodyAt(s, base, wireType).value;
    var front := s[..body.size];
    if wireType == 0 || wireType == 2 {
      var d := VarintAt(s).value;
      VarintAtPrefix(s, body.size);
      VarintAtStable(front, t);
      assert (front + t)[..d.end] == s[..d.end];
      if wireType == 2 {
        assert (front + t)[d.end..body.size] == s[d.end..body.size];
      }
    } else {
      assert (front + t)[..body.size] == s[..body.size];
    }
  }

  lemma RecordAtLocal(s: bytes, base: nat, t: bytes, base': nat)
    requires RecordAt(s, base).Success?
    ensures RecordAt(RecordAt(s, base).value.raw + t, base') == RecordAt(s, base)
  {
    hide BodyAt, VarintAt, FieldOf, WireTypeOf;
    var r := RecordAt(s, base).value;
    var d := VarintAt(s).value;
    var wt := WireTypeOf(d.value);
    var body := BodyAt(s[d.end..], base + d.end, wt).value;
    VarintAtPrefix(s, |r.raw|);
    VarintAtStable(r.raw, t);
    BodyAtLocal(s[d.end..], base + d.end, wt, t, base' + d.end);
    assert (r.raw + t)[d.end..] == s[d.end..][..body.size] + t;
    assert (r.raw + t)[..|r.raw|] == r.raw;
  }

  lemma WellFormedAt(r: Record, t: bytes, base: nat)
    requires WellFormed(r)
    ensures RecordAt(r.raw + t, base) == Success(r)
  {
    RecordAtLocal(r.raw, 0, t, base);
  }

  /** A parse splits its input: the raw bytes in order, each record well formed. */
  lemma {:induction false} ParseSplits(s: bytes, base: nat)
    requires Parse(s, base).Success?
    ensures Raws(Parse(s, base).value) == s
    ensures AllWellFormed(Parse(s, base).value)
    decreases |s|
  {
    hide RecordAt;
    if s != [] {
      var r := RecordAt(s, base).value;
      ParseSplits(s[|r.raw|..], base + |r.raw|);
      RecordAtLocal(s, base, [], 0);
      assert r.raw + [] == r.raw;
      assert r.raw + s[|r.raw|..] == s;
    }
  }

  /** Printing well-formed records and parsing gives them back. */
  lemma {:induction false} ParseOfRaws(rs: seq<Record>, base: nat)
    requires AllWellFormed(rs)
    ensures Parse(Raws(rs), base) == Success(rs)
    decreases |rs|
  {
    hide RecordAt;
    if rs != [] {
      var r, rest := rs[0], rs[1..];
      assert r in rs;
      WellFormedAt(r, Raws(rest), base);
      assert r.raw != [];
      ParseOfRaws(rest, base + |r.raw|);
      assert Raws(rs)[|r.raw|..] == Raws(rest);
      assert rs == [r] + rest;
    }
  }

  lemma {:induction false} RawsConcat(a: seq<Record>, b: seq<Record>)
    ensures Raws(a + b) == Raws(a) + Raws(b)
  {
    if a == [] {
      assert a + b == b;
    } else {
      RawsConcat(a[1..], b);
      assert (a + b)[1..] == a[1..] + b;
      assert a[0].raw + (Raws(a[1..]) + Raws(b)) == (a[0].raw + Raws(a[1..])) + Raws(b);
    }
  }

  // ---------- Skipping ----------

  method SkipField(data: bytes, offset: nat, wireType: byte) returns (r: Result<nat, WireError>)
    requires |data| <= ISIZE_MAX
    ensures match BodyAt(Rest(data, offset), offset, wireType)
      case Success(body) => r == Success(offset + body.size)
      case Failure(e) => r == Failure(e)
    ensures r.Success? ==> offset < r.value <= |data|
  {
    hide WordToNat, VarintAt;
    match wireType
    case 0 =>
      var d :- ReadVarint(data, offset);
      return Success(d.end);
    case 1 =>
      if offset + 8 > |data| {
        return Failure(Incomplete64Bit);
      }
      return Success(offset + 8);
    case 2 =>
      var d :- ReadVarint(data, offset);
      var length := WordToNat(d.value);
      if d.end + length > USIZE_MAX {
        return Failure(LengthOverflow);
      }
      var end := d.end + length;
      if end > |data| {
        return Failure(IncompleteLengthDelimited);
      }
      return Success(end);
    case 5 =>
      if offset + 4 > |data| {
        return Failure(Incomplete32Bit);
      }
      return Success(offset + 4);
    case _ =>
      return Failure(UnknownWireType(wireType));
  }

  // ---------- Removing a field ----------

  function Without(rs: seq<Record>, field: bv32): seq<Record> {
    if rs == [] then []
    else if rs[0].field == field then Without(rs[1..], field)
    else [rs[0]] + Without(rs[1..], field)
  }

  /** What removal means on records: succeed exactly when everything parses, then print the others. */
  function Removed(data: bytes, field: bv32): Result<bytes, WireError> {
    match Parse(data, 0)
    case Success(rs) => Success(Raws(Without(rs, field)))
    case Failure(e) => Failure(e)
  }

  lemma ScanStart(data: bytes, field: bv32)
    ensures Parse(data, 0) == WithPrefix([], Parse(data[0..], 0))
    ensures Raws(Without([], field)) == []
  {
    assert data[0..] == data;
    assert Parse(data, 0).Success? ==> [] + Parse(data, 0).value == Parse(data, 0).value;
  }

  lemma ScanEnd(s: bytes, base: nat, done: seq<Record>)
    requires s == []
    ensures WithPrefix(done, Parse(s, base)) == Success(done)
  {
    assert done + [] == done;
  }

  lemma ScanStep(data: bytes, offset: nat, done: seq<Record>)
    requires offset < |data|
    requires Parse(data, 0) == WithPrefix(done, Parse(data[offset..], offset))
    ensures match RecordAt(data[offset..], offset)
      case Success(r) =>
        && offset + |r.raw| <= |data|
        && data[offset..offset + |r.raw|] == r.raw
        && Parse(data, 0) == WithPrefix(done + [r], Parse(data[offset + |r.raw|..], offset + |r.raw|))
      case Failure(e) => Parse(data, 0) == Failure(e)
  {
    hide RecordAt, Parse;
    var s := data[offset..];
    ParseUnfold(s, offset);
    if RecordAt(s, offset).Success? {
      var r := RecordAt(s, offset).value;
      assert s[|r.raw|..] == data[offset + |r.raw|..];
      var rest := Parse(s[|r.raw|..], offset + |r.raw|);
      assert rest.Success? ==> done + ([r] + rest.value) == done + [r] + rest.value;
    }
  }

  lemma {:induction false} WithoutSnoc(rs: seq<Record>, r: Record, field: bv32)
    ensures Raws(Without(rs + [r], field)) == Raws(Without(rs, field)) + if r.field == field then [] else r.raw
  {
    WithoutConcat(rs, [r], field);
    RawsConcat(Without(rs, field), Without([r], field));
    assert Raws([r]) == r.raw + Raws([]);
  }

  lemma {:induction false} WithoutConcat(a: seq<Record>, b: seq<Record>, field: bv32)
    ensures Without(a + b, field) == Without(a, field) + Without(b, field)
  {
    if a == [] {
      assert a + b == b;
    } else {
      assert (a + b)[0] == a[0] && (a + b)[1..] == a[1..] + b;
      WithoutConcat(a[1..], b, field);
    }
  }

  method RemoveField(data: bytes, fieldNum: bv32) returns (r: Result<bytes, WireError>)
    requires |data| <= ISIZE_MAX
    ensures r == Removed(data, fieldNum)
  {
    hide RecordAt, BodyAt, FieldOf, WireTypeOf, VarintAt, Parse, Without, Raws;
    var result: bytes := [];
    var offset := 0;
    ghost var done: seq<Record> := [];
    ScanStart(data, fieldNum);
    while offset < |data|
      invariant offset <= |data|
      invariant Parse(data, 0) == WithPrefix(done, Parse(data[offset..], offset))
      invariant result == Raws(Without(done, fieldNum))
    {
      var startOffset := offset;
      ScanStep(data, offset, done);
      TagThenBody(data, offset);
      var tag :- ReadVarint(data, offset);
      var wireType := WireTypeOf(tag.value);
      var currentField := FieldOf(tag.value);
      // The source re-checks the skipped-to offset against the buffer; SkipField's contract
      // makes that check redundant.
      var next :- SkipField(data, tag.end, wireType);
      ghost var rec := RecordAt(data[offset..], offset).value;
      WithoutSnoc(done, rec, fieldNum);
      if currentField != fieldNum {
        result := result + data[startOffset..next];
      }
      offset := next;
      done := done + [rec];
    }
    ScanEnd(data[offset..], offset, done);
    return Success(result);
  }

  /** Reading the tag and then skipping the body is reading the record. */
  lemma TagThenBody(data: bytes, offset: nat)
    requires offset < |data|
    ensures match VarintAt(Rest(data, offset))
      case Failure(e) => RecordAt(data[offset..], offset) == Failure(e)
      case Success(d) =>
        var at := offset + d.end;
        match BodyAt(Rest(data, at), at, WireTypeOf(d.value))
        case Failure(e) => RecordAt(data[offset..], offset) == Failure(e)
        case Success(body) =>
          RecordAt(data[offset..], offset)
            == Success(Record(FieldOf(d.value), WireTypeOf(d.value), body.content, data[offset..at + body.size]))
  {
    hide BodyAt, FieldOf, WireTypeOf, VarintAt;
    if VarintAt(data[offset..]).Success? {
      var d := VarintAt(data[offset..]).value;
      assert data[offset..][d.end..] == data[offset + d.end..];
      match BodyAt(data[offset + d.end..], offset + d.end, WireTypeOf(d.value))
      case Failure(_) =>
      case Success(body) =>
        assert data[offset..][..d.end + body.size] == data[offset..offset + d.end + body.size];
    }
  }

  // ---------- Finding a field ----------

  /** The scan stops at the first length-delimited match: records after it are never looked at. */
  function FindIn(s: bytes, base: nat, target: bv32): (r: Result<Option<bytes>, WireError>)
    ensures r.Success? && r.value.Some? ==> |r.value.value| <= |s|
    decreases |s|
  {
    if s == [] then Success(None)
    else
      var d :- VarintAt(s);
      if FieldOf(d.value) == target && WireTypeOf(d.value) == 2 then
        match BodyAt(s[d.end..], base + d.end, 2)
        case Success(body) => Success(Some(body.content))
        case Failure(e) => Failure(if e == IncompleteLengthDelimited then TruncatedFieldData else e)
      else
        var r :- RecordAt(s, base);
        FindIn(s[|r.raw|..], base + |r.raw|, target)
  }

  predicate Matches(r: Record, target: bv32) {
    r.field == target && r.wireType == 2
  }

  function FirstContent(rs: seq<Record>, target: bv32): Option<bytes> {
    if rs == [] then None
    else if Matches(rs[0], target) then Some(rs[0].content)
    else FirstContent(rs[1..], target)
  }

  lemma RecordAtParts(s: bytes, base: nat)
    requires RecordAt(s, base).Success?
    ensures VarintAt(s).Success?
    ensures var d := VarintAt(s).value;
      var r := RecordAt(s, base).value;
      && r.field == FieldOf(d.value) && r.wireType == WireTypeOf(d.value)
      && BodyAt(s[d.end..], base + d.end, r.wireType) == Success(Body(r.content, |r.raw| - d.end))
  {
    hide BodyAt, FieldOf, WireTypeOf, VarintAt;
  }

  lemma RecordFromParts(s: bytes, base: nat)
    requires VarintAt(s).Success?
    requires var d := VarintAt(s).value; BodyAt(s[d.end..], base + d.end, WireTypeOf(d.value)).Success?
    ensures var d := VarintAt(s).value;
      var body := BodyAt(s[d.end..], base + d.end, WireTypeOf(d.value)).value;
      RecordAt(s, base) == Success(Record(FieldOf(d.value), WireTypeOf(d.value), body.content, s[..d.end + body.size]))
  {
    hide BodyAt, FieldOf, WireTypeOf, VarintAt;
  }

  /** On a message that parses, the scan is a lookup of the first matching record. */
  lemma {:induction false} FindOnParsed(s: bytes, base: nat, target: bv32)
    requires Parse(s, base).Success?
    ensures FindIn(s, base, target) == Success(FirstContent(Parse(s, base).value, target))
    decreases |s|
  {
    hide BodyAt, RecordAt, FieldOf, WireTypeOf, VarintAt;
    if s != [] {
      RecordAtParts(s, base);
      var r := RecordAt(s, base).value;
      FindOnParsed(s[|r.raw|..], base + |r.raw|, target);
      assert Parse(s, base).value[1..] == Parse(s[|r.raw|..], base + |r.raw|).value;
    }
  }

  /** A first match at offset `k`, after records that do not match. */
  ghost predicate FirstMatchAt(s: bytes, base: nat, target: bv32, k: nat, content: bytes) {
    && k < |s|
    && Parse(s[..k], base).Success?
    && FirstContent(Parse(s[..k], base).value, target) == None
    && RecordAt(s[k..], base + k).Success?
    && Matches(RecordAt(s[k..], base + k).value, target)
    && RecordAt(s[k..], base + k).value.content == content
  }

  lemma {:induction false} FindWitness(s: bytes, base: nat, target: bv32, content: bytes) returns (k: nat)
    requires FindIn(s, base, target) == Success(Some(content))
    ensures FirstMatchAt(s, base, target, k, content)
    decreases |s|
  {
    hide BodyAt, RecordAt, FieldOf, WireTypeOf, VarintAt, Parse;
    var d := VarintAt(s).value;
    if FieldOf(d.value) == target && WireTypeOf(d.value) == 2 {
      k := 0;
      assert s[..0] == [] && s[0..] == s;
      ParseUnfold([], base);
      RecordFromParts(s, base);
    } else {
      var r := RecordAt(s, base).value;
      RecordAtParts(s, base);
      var k' := FindWitness(s[|r.raw|..], base + |r.raw|, target, content);
      k := |r.raw| + k';
      FirstMatchPrepend(s, base, target, k', content);
    }
  }

  /** Parsing a prefix that starts with the first record. */
  lemma ParsePrepend(s: bytes, base: nat, k: nat)
    requires RecordAt(s, base).Success? && |RecordAt(s, base).value.raw| <= k <= |s|
    ensures var r := RecordAt(s, base).value;
      Parse(s[..k], base) == WithPrefix([r], Parse(s[|r.raw|..][..k - |r.raw|], base + |r.raw|))
  {
    hide RecordAt;
    var r := RecordAt(s, base).value;
    var n := |r.raw|;
    RecordAtLocal(s, base, s[n..k], base);
    assert r.raw + s[n..k] == s[..k];
    assert s[..k][n..] == s[n..][..k - n];
  }

  lemma FirstMatchPrepend(s: bytes, base: nat, target: bv32, k: nat, content: bytes)
    requires RecordAt(s, base).Success? && !Matches(RecordAt(s, base).value, target)
    requires var n := |RecordAt(s, base).value.raw|; FirstMatchAt(s[n..], base + n, target, k, content)
    ensures FirstMatchAt(s, base, target, |RecordAt(s, base).value.raw| + k, content)
  {
    hide RecordAt, Matches, Parse;
    var r := RecordAt(s, base).value;
    var n := |r.raw|;
    assert s[n + k..] == s[n..][k..];
    ParsePrepend(s, base, n + k);
  }

  lemma {:induction false} FindFromWitness(s: bytes, base: nat, target: bv32, k: nat, content: bytes)
    requires FirstMatchAt(s, base, target, k, content)
    ensures FindIn(s, base, target) == Success(Some(content))
    decreases |s|
  {
    hide BodyAt, RecordAt, FieldOf, WireTypeOf, VarintAt;
    if k == 0 {
      assert s[0..] == s;
      RecordAtParts(s, base);
    } else {
      ParseSplits(s[..k], base);
      var rs := Parse(s[..k], base).value;
      var r := rs[0];
      var n := |r.raw|;
      RecordAtLocal(s[..k], base, s[n..], base);
      assert r.raw + s[n..] == s;
      RecordAtParts(s, base);
      ParsePrepend(s, base, k);
      assert s[n..][k - n..] == s[k..];
      assert rs == [r] + Parse(s[n..][..k - n], base + n).value;
      FindFromWitness(s[n..], base + n, target, k - n, content);
    }
  }

  /** `find_field` yields a value exactly when a parsed, non-matching prefix is followed by a match. */
  lemma FindMeaning(s: bytes, target: bv32, content: bytes)
    ensures FindIn(s, 0, target) == Success(Some(content)) <==> exists k :: FirstMatchAt(s, 0, target, k, content)
  {
    if FindIn(s, 0, target) == Success(Some(content)) {
      var k := FindWitness(s, 0, target, content);
    }
    if k :| FirstMatchAt(s, 0, target, k, content) {
      FindFromWitness(s, 0, target, k, content);
    }
  }

  /** It yields nothing exactly when the whole message parses and no record matches. */
  lemma {:induction false} FindNothing(s: bytes, base: nat, target: bv32)
    ensures FindIn(s, base, target) == Success(None)
       <==> Parse(s, base).Success? && FirstContent(Parse(s, base).value, target) == None
    decreases |s|
  {
    hide BodyAt, FieldOf, WireTypeOf, VarintAt;
    if Parse(s, base).Success? {
      FindOnParsed(s, base, target);
    } else if RecordAt(s, base).Success? {
      var r := RecordAt(s, base).value;
      FindNothing(s[|r.raw|..], base + |r.raw|, target);
    }
  }

  /** Reading the payload of a match in place. */
  lemma FindMatch(data: bytes, offset: nat, target: bv32)
    requires offset < |data| && VarintAt(data[offset..]).Success?
    requires var d := VarintAt(data[offset..]).value; FieldOf(d.value) == target && WireTypeOf(d.value) == 2
    ensures var at := offset + VarintAt(data[offset..]).value.end;
      FindIn(data[offset..], offset, target) ==
        match VarintAt(Rest(data, at))
        case Failure(e) => Failure(e)
        case Success(length) =>
          var start := at + length.end;
          var end := start + WordToNat(length.value);
          if end <= |data| then Success(Some(data[start..end]))
          else if end > USIZE_MAX then Failure(LengthOverflow)
          else Failure(TruncatedFieldData)
  {
    hide FieldOf, WireTypeOf, VarintAt, WordToNat;
    var s := data[offset..];
    var d := VarintAt(s).value;
    var at := offset + d.end;
    assert s[d.end..] == data[at..];
    if VarintAt(data[at..]).Success? {
      var length := VarintAt(data[at..]).value;
      var n := length.end + WordToNat(length.value);
      if at + n <= |data| {
        assert data[at..][length.end..n] == data[at + length.end..at + n];
      }
    }
  }

  lemma FindSkip(data: bytes, offset: nat, target: bv32)
    requires offset < |data|
    ensures var found := FindIn(data[offset..], offset, target);
      match VarintAt(Rest(data, offset))
      case Failure(e) => found == Failure(e)
      case Success(d) =>
        var at, wireType := offset + d.end, WireTypeOf(d.value);
        if FieldOf(d.value) == target && wireType == 2 then true
        else
          match BodyAt(Rest(data, at), at, wireType)
          case Failure(e) => found == Failure(e)
          case Success(body) => found == FindIn(data[at + body.size..], at + body.size, target)
  {
    hide FieldOf, WireTypeOf, VarintAt, RecordAt, BodyAt;
    var s := data[offset..];
    TagThenBody(data, offset);
    if VarintAt(s).Success? {
      var d := VarintAt(s).value;
      var at, wireType := offset + d.end, WireTypeOf(d.value);
      if BodyAt(Rest(data, at), at, wireType).Success? {
        var n := d.end + BodyAt(Rest(data, at), at, wireType).value.size;
        assert s[n..] == data[offset + n..];
      }
    }
  }

  method FindField(data: bytes, targetField: bv32) returns (r: Result<Option<bytes>, WireError>)
    requires |data| <= ISIZE_MAX
    ensures r == FindIn(data, 0, targetField)
  {
    hide RecordAt, BodyAt, FieldOf, WireTypeOf, VarintAt, WordToNat, FindIn;
    var offset := 0;
    assert data[0..] == data;
    while offset < |data|
      invariant offset <= |data|
      invariant FindIn(data, 0, targetField) == FindIn(data[offset..], offset, targetField)
    {
      FindSkip(data, offset, targetField);
      var tag :- ReadVarint(data, offset);
      var wireType := WireTypeOf(tag.value);
      var fieldNum := FieldOf(tag.value);
      if fieldNum == targetField && wireType == 2 {
        FindMatch(data, offset, targetField);
        var length :- ReadVarint(data, tag.end);
        var lengthUsize := WordToNat(length.value);
        if length.end + lengthUsize > USIZE_MAX {
          return Failure(LengthOverflow);
        }
        var end := length.end + lengthUsize;
        if end > |data| {
          return Failure(TruncatedFieldData);
        }
        return Success(Some(data[length.end..end]));
      }
      offset :- SkipField(data, tag.end, wireType);
    }
    FindAtEnd(offset, targetField);
    assert data[offset..] == [];
    return Success(None);
  }

  lemma FindAtEnd(base: nat, target: bv32)
    ensures FindIn([], base, target) == Success(None)
  {}

  // ---------- What removal does to later lookups ----------

  lemma {:induction false} WithoutKeeps(rs: seq<Record>, field: bv32, target: bv32)
    requires AllWellFormed(rs)
    ensures AllWellFormed(Without(rs, field))
    ensures Without(Without(rs, field), field) == Without(rs, field)
    ensures FirstContent(Without(rs, field), target) == if target == field then None else FirstContent(rs, target)
  {
    hide WellFormed;
    if rs != [] {
      assert rs[0] in rs && forall r | r in rs[1..] :: r in rs;
      WithoutKeeps(rs[1..], field, target);
    }
  }

  /** Removal leaves a message of exactly the other records: removing again changes nothing, the
      field is gone, every other field reads as before. */
  lemma RemovalMeaning(data: bytes, field: bv32, target: bv32)
    requires Removed(data, field).Success?
    ensures var out := Removed(data, field).value;
      && Parse(out, 0) == Success(Without(Parse(data, 0).value, field))
      && Removed(out, field) == Success(out)
      && FindIn(out, 0, target) == if target == field then Success(None) else FindIn(data, 0, target)
  {
    hide Parse, FindIn;
    var rs := Parse(data, 0).value;
    ParseSplits(data, 0);
    WithoutKeeps(rs, field, target);
    ParseOfRaws(Without(rs, field), 0);
    FindOnParsed(data, 0, target);
    FindOnParsed(Raws(Without(rs, field)), 0, target);
  }

  // ---------- Printing a length-delimited record ----------

  function LengthDelimited(tag: bv64, content: bytes): bytes {
    Varint(tag) + Varint(NatToWord(|content|)) + content
  }

  lemma LengthDelimitedBody(content: bytes, t: bytes, base: nat)
    requires |content| <= ISIZE_MAX
    ensures var e := Varint(NatToWord(|content|));
      BodyAt(e + content + t, base, 2) == Success(Body(content, |e| + |content|))
  {
    hide WordToNat, NatToWord, Varint, VarintAt;
    var w := NatToWord(|content|);
    var e := Varint(w);
    LengthCastRoundTrip(|content|);
    VarintRoundTrip(w, content + t);
    assert e + content + t == e + (content + t);
    assert (e + content + t)[|e|..|e| + |content|] == content;
  }

  lemma LengthDelimitedRecord(tag: bv64, content: bytes)
    requires |content| <= ISIZE_MAX && WireTypeOf(tag) == 2
    ensures var raw := LengthDelimited(tag, content);
      RecordAt(raw, 0) == Success(Record(FieldOf(tag), 2, content, raw))
  {
    hide WordToNat, NatToWord, Varint, VarintAt, BodyAt, FieldOf, WireTypeOf;
    var raw := LengthDelimited(tag, content);
    var e := Varint(NatToWord(|content|));
    VarintRoundTrip(tag, e + content);
    assert raw == Varint(tag) + (e + content);
    LengthDelimitedBody(content, [], |Varint(tag)|);
    assert raw[|Varint(tag)|..] == e + content + [];
    assert raw[..|raw|] == raw;
  }
}
