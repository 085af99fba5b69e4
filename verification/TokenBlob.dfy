/** Storing an OAuth token in, and reading it back from, the editor's state blob
    (vscode.rs and token_extraction.rs on top of utils/protobuf.rs). */
module TokenBlob {
  import opened Wrappers
  import opened ProtobufWire
  import opened ProtobufRecords
  import opened ProtobufPrinting

  const OAUTH_FIELD: bv32 := 6
  const REFRESH_FIELD: bv32 := 3

  // ---------- The nested message ----------

  /** "Bearer" */
  const BEARER: bytes := [0x42, 0x65, 0x61, 0x72, 0x65, 0x72]

  /** An i64 is its two's-complement word, so casting it to u64 keeps the bits. */
  function TimestampMessage(expiry: bv64): bytes {
    Varint(8) + Varint(expiry)
  }

  function OauthMessage(access: bytes, refresh: bytes, expiry: bv64): bytes {
    LengthDelimited(10, access) + LengthDelimited(18, BEARER) + LengthDelimited(26, refresh)
    + LengthDelimited(34, TimestampMessage(expiry))
  }

  function OauthField(access: bytes, refresh: bytes, expiry: bv64): bytes {
    LengthDelimited(50, OauthMessage(access, refresh, expiry))
  }

  method CreateOauthField(access: bytes, refresh: bytes, expiry: bv64) returns (field6: bytes)
    ensures field6 == OauthField(access, refresh, expiry)
  {
    hide NatToWord, Varint;
    var field1 := EncodeVarint((1 << 3) | 2);
    var length := EncodeVarint(NatToWord(|access|));
    field1 := field1 + length + access;

    var field2 := EncodeVarint((2 << 3) | 2);
    length := EncodeVarint(NatToWord(|BEARER|));
    field2 := field2 + length + BEARER;

    var field3 := EncodeVarint((3 << 3) | 2);
    length := EncodeVarint(NatToWord(|refresh|));
    field3 := field3 + length + refresh;

    var timestamp := EncodeVarint(1 << 3);
    var seconds := EncodeVarint(expiry);
    timestamp := timestamp + seconds;

    var field4 := EncodeVarint((4 << 3) | 2);
    length := EncodeVarint(NatToWord(|timestamp|));
    field4 := field4 + length + timestamp;

    var oauthInfo := field1 + field2 + field3 + field4;
    field6 := EncodeVarint((6 << 3) | 2);
    length := EncodeVarint(NatToWord(|oauthInfo|));
    field6 := field6 + length + oauthInfo;
  }

  function DelimitedRecord(tag: bv64, content: bytes): Record {
    Record(FieldOf(tag), 2, content, LengthDelimited(tag, content))
  }

  function OauthRecords(access: bytes, refresh: bytes, expiry: bv64): seq<Record> {
    [DelimitedRecord(10, access), DelimitedRecord(18, BEARER), DelimitedRecord(26, refresh),
     DelimitedRecord(34, TimestampMessage(expiry))]
  }

  lemma TokenTags()
    ensures FieldOf(8) == 1 && WireTypeOf(8) == 0
    ensures FieldOf(10) == 1 && FieldOf(18) == 2 && FieldOf(26) == 3 && FieldOf(34) == 4 && FieldOf(50) == 6
    ensures WireTypeOf(10) == WireTypeOf(18) == WireTypeOf(26) == WireTypeOf(34) == WireTypeOf(50) == 2
  {}

  lemma RawsOfFour(a: Record, b: Record, c: Record, d: Record)
    ensures Raws([a, b, c, d]) == a.raw + b.raw + c.raw + d.raw
  {
    assert Raws([d]) == d.raw + Raws([]);
    assert Raws([c, d]) == c.raw + Raws([d]);
    assert Raws([b, c, d]) == b.raw + Raws([c, d]);
    assert Raws([a, b, c, d]) == a.raw + Raws([b, c, d]);
  }

  lemma FirstContentOfFour(a: Record, b: Record, c: Record, d: Record, target: bv32)
    ensures FirstContent([a, b, c, d], target) ==
      if Matches(a, target) then Some(a.content)
      else if Matches(b, target) then Some(b.content)
      else if Matches(c, target) then Some(c.content)
      else if Matches(d, target) then Some(d.content)
      else None
  {
    hide Matches;
    assert [c, d][1..] == [d] && [b, c, d][1..] == [c, d] && [a, b, c, d][1..] == [b, c, d];
    assert FirstContent([d], target) == if Matches(d, target) then Some(d.content) else FirstContent([], target);
    assert FirstContent([c, d], target) == if Matches(c, target) then Some(c.content) else FirstContent([d], target);
    assert FirstContent([b, c, d], target) ==
      if Matches(b, target) then Some(b.content) else FirstContent([c, d], target);
  }

  /** Every field of the printed message reads back, and the nested timestamp holds the expiry. */
  lemma OauthMessageReadsBack(access: bytes, refresh: bytes, expiry: bv64)
    requires |OauthMessage(access, refresh, expiry)| <= ISIZE_MAX
    ensures var m := OauthMessage(access, refresh, expiry);
      && FindIn(m, 0, 1) == Success(Some(access))
      && FindIn(m, 0, 2) == Success(Some(BEARER))
      && FindIn(m, 0, 3) == Success(Some(refresh))
      && FindIn(m, 0, 4) == Success(Some(TimestampMessage(expiry)))
      && Parse(m, 0) == Success(OauthRecords(access, refresh, expiry))
    ensures var t := TimestampMessage(expiry);
      && RecordAt(t, 0) == Success(Record(1, 0, t[1..], t))
      && VarintAt(t[1..]) == Success(Decoded(expiry, |t| - 1))
  {
    hide Varint, NatToWord, VarintAt, BodyAt, RecordAt, FieldOf, WireTypeOf, Parse, FindIn, Raws, FirstContent;
    var m := OauthMessage(access, refresh, expiry);
    var t := TimestampMessage(expiry);
    TokenTags();
    TimestampReadsBack(expiry);
    LengthDelimitedRecord(10, access);
    LengthDelimitedRecord(18, BEARER);
    LengthDelimitedRecord(26, refresh);
    LengthDelimitedRecord(34, t);
    var a, b, c, d := DelimitedRecord(10, access), DelimitedRecord(18, BEARER), DelimitedRecord(26, refresh),
      DelimitedRecord(34, t);
    var rs := [a, b, c, d];
    assert AllWellFormed(rs);
    RawsOfFour(a, b, c, d);
    ParseOfRaws(rs, 0);
    FindOnParsed(m, 0, 1);
    FindOnParsed(m, 0, 2);
    FindOnParsed(m, 0, 3);
    FindOnParsed(m, 0, 4);
    FirstContentOfFour(a, b, c, d, 1);
    FirstContentOfFour(a, b, c, d, 2);
    FirstContentOfFour(a, b, c, d, 3);
    FirstContentOfFour(a, b, c, d, 4);
  }

  lemma EightIsOneByte()
    ensures Varint(8) == [8]
  {}

  lemma TimestampReadsBack(expiry: bv64)
    ensures var t := TimestampMessage(expiry);
      && RecordAt(t, 0) == Success(Record(1, 0, t[1..], t))
      && VarintAt(t[1..]) == Success(Decoded(expiry, |t| - 1))
  {
    hide Varint, VarintAt, FieldOf, WireTypeOf;
    var t, e := TimestampMessage(expiry), Varint(expiry);
    EightIsOneByte();
    TokenTags();
    VarintRoundTrip(8, e);
    VarintRoundTrip(expiry, []);
    assert e + [] == e && t[1..] == e && e[..|e|] == e;
    assert t[..|t|] == t;
  }

  // ---------- Injecting and extracting on blobs ----------

  /** Steps 4 to 6 of the injection: drop the old field, append the new one. */
  function InjectInto(blob: bytes, access: bytes, refresh: bytes, expiry: bv64): Result<bytes, WireError> {
    var clean :- Removed(blob, OAUTH_FIELD);
    Success(clean + OauthField(access, refresh, expiry))
  }

  datatype ExtractError =
    | StateNotFound
    | Base64Failed
    | OuterParse(error: WireError)
    | NoOauthField
    | InnerParse(error: WireError)
    | NoRefreshToken
    | NotUtf8

  function ExtractFrom(blob: bytes): Result<bytes, ExtractError> {
    match FindIn(blob, 0, OAUTH_FIELD)
    case Failure(e) => Failure(OuterParse(e))
    case Success(None) => Failure(NoOauthField)
    case Success(Some(oauth)) =>
      match FindIn(oauth, 0, REFRESH_FIELD)
      case Failure(e) => Failure(InnerParse(e))
      case Success(None) => Failure(NoRefreshToken)
      case Success(Some(token)) => Success(token)
  }

  lemma {:induction false} FirstContentConcat(rs: seq<Record>, r: Record, target: bv32)
    ensures FirstContent(rs + [r], target) ==
      if FirstContent(rs, target).Some? then FirstContent(rs, target)
      else if Matches(r, target) then Some(r.content) else None
  {
    if rs == [] {
      assert rs + [r] == [r];
      assert FirstContent([r], target) == if Matches(r, target) then Some(r.content) else None;
    } else {
      FirstContentConcat(rs[1..], r, target);
      assert (rs + [r])[1..] == rs[1..] + [r];
    }
  }

  /** The injected blob parses to the other records, in order, followed by one token record. */
  lemma InjectedRecords(blob: bytes, access: bytes, refresh: bytes, expiry: bv64)
    requires InjectInto(blob, access, refresh, expiry).Success?
    requires |OauthMessage(access, refresh, expiry)| <= ISIZE_MAX
    ensures Parse(blob, 0).Success?
    ensures Parse(InjectInto(blob, access, refresh, expiry).value, 0)
         == Success(Without(Parse(blob, 0).value, OAUTH_FIELD) +
           [DelimitedRecord(50, OauthMessage(access, refresh, expiry))])
  {
    hide RecordAt, FieldOf, WireTypeOf, LengthDelimited, Parse, Raws, Without, OauthMessage;
    var message := OauthMessage(access, refresh, expiry);
    var rs := Parse(blob, 0).value;
    var kept, token := Without(rs, OAUTH_FIELD), DelimitedRecord(50, message);
    TokenTags();
    LengthDelimitedRecord(50, message);
    ParseSplits(blob, 0);
    WithoutKeeps(rs, OAUTH_FIELD, OAUTH_FIELD);
    RawsConcat(kept, [token]);
    RawsOfOne(token);
    assert AllWellFormed(kept + [token]);
    ParseOfRaws(kept + [token], 0);
  }

  lemma RawsOfOne(r: Record)
    ensures Raws([r]) == r.raw
  {
    assert Raws([r]) == r.raw + Raws([]);
  }

  /** Injection succeeds exactly on blobs that parse to the end; then extraction returns the
      refresh token that was put in, every other field reads as before, and a second injection
      leaves no trace of the first. */
  lemma InjectThenExtract(blob: bytes, access: bytes, refresh: bytes, expiry: bv64,
                          access': bytes, refresh': bytes, expiry': bv64, target: bv32)
    requires |OauthMessage(access, refresh, expiry)| <= ISIZE_MAX
    ensures var r := InjectInto(blob, access, refresh, expiry);
      && (r.Success? <==> Parse(blob, 0).Success?)
      && (r.Success? ==>
            && ExtractFrom(r.value) == Success(refresh)
            && (target != OAUTH_FIELD ==> FindIn(r.value, 0, target) == FindIn(blob, 0, target))
            && InjectInto(r.value, access', refresh', expiry') == InjectInto(blob, access', refresh', expiry'))
  {
    hide Parse, Without, FindIn, FirstContent, LengthDelimited, FieldOf, OauthMessage, Raws;
    var r := InjectInto(blob, access, refresh, expiry);
    if r.Success? {
      var rs, message := Parse(blob, 0).value, OauthMessage(access, refresh, expiry);
      var kept, token := Without(rs, OAUTH_FIELD), DelimitedRecord(50, message);
      TokenTags();
      InjectedRecords(blob, access, refresh, expiry);
      ParseSplits(blob, 0);
      WithoutKeeps(rs, OAUTH_FIELD, OAUTH_FIELD);
      WithoutKeeps(rs, OAUTH_FIELD, target);
      FindOnParsed(r.value, 0, OAUTH_FIELD);
      FindOnParsed(r.value, 0, target);
      FindOnParsed(blob, 0, target);
      FirstContentConcat(kept, token, OAUTH_FIELD);
      FirstContentConcat(kept, token, target);
      OauthMessageReadsBack(access, refresh, expiry);
      WithoutConcat(kept, [token], OAUTH_FIELD);
      DropsOne(token, OAUTH_FIELD);
      assert kept + [] == kept;
    }
  }

  lemma DropsOne(r: Record, field: bv32)
    requires r.field == field
    ensures Without([r], field) == []
  {
    assert Without([r], field) == Without([r][1..], field);
  }

  // ---------- Injecting into, and extracting from, printed messages ----------

  /** The token field as the independent printer's value. */
  function TokenField(access: bytes, refresh: bytes, expiry: bv64): Field {
    Field(6, Delimited(PrintAll([
      Field(1, Delimited(access)), Field(2, Delimited(BEARER)), Field(3, Delimited(refresh)),
      Field(4, Delimited(Print(Field(1, Number(expiry)))))])))
  }

  lemma PrintAllOfFour(a: Field, b: Field, c: Field, d: Field)
    ensures PrintAll([a, b, c, d]) == Print(a) + Print(b) + Print(c) + Print(d)
  {
    assert PrintAll([d]) == Print(d) + PrintAll([]);
    assert PrintAll([c, d]) == Print(c) + PrintAll([d]);
    assert PrintAll([b, c, d]) == Print(b) + PrintAll([c, d]);
    assert PrintAll([a, b, c, d]) == Print(a) + PrintAll([b, c, d]);
  }

  lemma DelimitedIsPrinted(number: bv32, content: bytes)
    requires number in {1, 2, 3, 4, 6}
    ensures TagOf(1, 2) == 10 && TagOf(2, 2) == 18 && TagOf(3, 2) == 26 && TagOf(4, 2) == 34 && TagOf(6, 2) == 50
    ensures TagOf(1, 0) == 8
    ensures Print(Field(number, Delimited(content))) == LengthDelimited(TagOf(number, 2), content)
  {
    var tag := TagOf(number, 2);
    assert LengthDelimited(tag, content) == Varint(tag) + (Varint(NatToWord(|content|)) + content);
  }

  /** The built bytes are the printed token field, and its second field says "Bearer". */
  lemma OauthFieldIsPrinted(access: bytes, refresh: bytes, expiry: bv64)
    ensures OauthField(access, refresh, expiry) == Print(TokenField(access, refresh, expiry))
    ensures |BEARER| == |"Bearer"| && forall i | 0 <= i < |BEARER| :: BEARER[i] as int == "Bearer"[i] as int
  {
    var t := Print(Field(1, Number(expiry)));
    var a, b, c, d := Field(1, Delimited(access)), Field(2, Delimited(BEARER)), Field(3, Delimited(refresh)),
      Field(4, Delimited(t));
    DelimitedIsPrinted(1, access);
    DelimitedIsPrinted(2, BEARER);
    DelimitedIsPrinted(3, refresh);
    DelimitedIsPrinted(4, t);
    DelimitedIsPrinted(6, PrintAll([a, b, c, d]));
    assert t == TimestampMessage(expiry);
    PrintAllOfFour(a, b, c, d);
    hide Varint, LengthDelimited, TagOf, Print, PrintAll;
  }

  /** Injecting into any printed message prints the fields with other numbers, in order, and then the
      token field. */
  lemma InjectPrinted(fs: seq<Field>, access: bytes, refresh: bytes, expiry: bv64)
    requires AllPrintable(fs)
    ensures InjectInto(PrintAll(fs), access, refresh, expiry) ==
      Success(PrintAll(Others(fs, 6)) + Print(TokenField(access, refresh, expiry)))
  {
    RemovePrinted(fs, 6);
    OauthFieldIsPrinted(access, refresh, expiry);
    hide Removed, PrintAll, TokenField, OauthField;
  }

  /** Extracting from a printed message yields the first length-delimited field 3 of its first
      length-delimited field 6. */
  lemma ExtractPrinted(fs: seq<Field>, i: nat, inner: seq<Field>, j: nat)
    requires AllPrintable(fs) && FirstDelimited(fs, 6, i) && fs[i].value.content == PrintAll(inner)
    requires AllPrintable(inner) && FirstDelimited(inner, 3, j)
    ensures ExtractFrom(PrintAll(fs)) == Success(inner[j].value.content)
  {
    FindPrinted(fs, 6, i);
    FindPrinted(inner, 3, j);
    hide FindIn, PrintAll;
  }

  // ---------- The database row ----------

  /** The standard base64 alphabet, taken as an uninterpreted codec. */
  datatype Base64 = Base64(encode: bytes -> string, decode: string -> Option<bytes>)

  /** Decoding undoes encoding, and a decoded buffer fits in memory. */
  ghost predicate Lossless(codec: Base64) {
    && (forall b: bytes | |b| <= ISIZE_MAX :: codec.decode(codec.encode(b)) == Some(b))
    && (forall s: string :: codec.decode(s).Some? ==> |codec.decode(s).value| <= ISIZE_MAX)
  }

  const STATE_KEY := "jetskiStateSync.agentManagerInitState"
  const ONBOARDING_KEY := "antigravityOnboarding"

  datatype InjectError = ReadFailed | DecodeFailed | Malformed(error: WireError) | WriteFailed | MarkerFailed

  /** The ItemTable of the state database. */
  class StateDb {
    var rows: map<string, string>

    constructor ()
      ensures rows == map[]
    {
      rows := map[];
    }

    /** `updates` and `marks` tell whether the two statements succeed; they are not one transaction, so
        a failing marker leaves the new token behind. */
    method InjectToken(codec: Base64, access: bytes, refresh: bytes, expiry: bv64, updates: bool, marks: bool)
      returns (r: Result<(), InjectError>)
      requires Lossless(codec)
      modifies this
      ensures r.Success? <==>
        && STATE_KEY in old(rows)
        && codec.decode(old(rows)[STATE_KEY]).Some?
        && InjectInto(codec.decode(old(rows)[STATE_KEY]).value, access, refresh, expiry).Success?
        && updates && marks
      ensures r.Failure? && r.error != MarkerFailed ==> rows == old(rows)
      ensures r.Success? || r == Failure(MarkerFailed) ==>
        && STATE_KEY in old(rows)
        && codec.decode(old(rows)[STATE_KEY]).Some?
        && var injected := InjectInto(codec.decode(old(rows)[STATE_KEY]).value, access, refresh, expiry);
        && injected.Success?
        && var updated := old(rows)[STATE_KEY := codec.encode(injected.value)];
        rows == if r.Success? then updated[ONBOARDING_KEY := "true"] else updated
    {
      hide Removed, OauthField, FieldOf;
      if STATE_KEY !in rows {
        return Failure(ReadFailed);
      }
      var decoded := codec.decode(rows[STATE_KEY]);
      if decoded.None? {
        return Failure(DecodeFailed);
      }
      var cleaned := RemoveField(decoded.value, 6);
      if cleaned.Failure? {
        return Failure(Malformed(cleaned.error));
      }
      var newField := CreateOauthField(access, refresh, expiry);
      var finalData := cleaned.value + newField;
      if !updates {
        return Failure(WriteFailed);
      }
      rows := rows[STATE_KEY := codec.encode(finalData)];
      if !marks {
        return Failure(MarkerFailed);
      }
      rows := rows[ONBOARDING_KEY := "true"];
      return Success(());
    }

    method ExtractRefreshToken(codec: Base64, isUtf8: bytes -> bool) returns (r: Result<bytes, ExtractError>)
      requires Lossless(codec)
      ensures r ==
        if STATE_KEY !in rows then Failure(StateNotFound)
        else if codec.decode(rows[STATE_KEY]).None? then Failure(Base64Failed)
        else
          var found := ExtractFrom(codec.decode(rows[STATE_KEY]).value);
          if found.Success? && !isUtf8(found.value) then Failure(NotUtf8) else found
    {
      hide FindIn;
      if STATE_KEY !in rows {
        return Failure(StateNotFound);
      }
      var decoded := codec.decode(rows[STATE_KEY]);
      if decoded.None? {
        return Failure(Base64Failed);
      }
      var oauth := FindField(decoded.value, 6);
      match oauth
      case Failure(e) =>
        return Failure(OuterParse(e));
      case Success(None) =>
        return Failure(NoOauthField);
      case Success(Some(message)) =>
        var refresh := FindField(message, 3);
        match refresh
        case Failure(e) =>
          return Failure(InnerParse(e));
        case Success(None) =>
          return Failure(NoRefreshToken);
        case Success(Some(token)) =>
          if !isUtf8(token) {
            return Failure(NotUtf8);
          }
          return Success(token);
    }
  }

  /** Injecting into a stored row and extracting from it returns the refresh token, even when only the
      marker failed. */
  method InjectAndReadBack(db: StateDb, codec: Base64, isUtf8: bytes -> bool, access: bytes, refresh: bytes,
                           expiry: bv64, updates: bool, marks: bool)
    returns (injected: Result<(), InjectError>, token: Result<bytes, ExtractError>)
    requires Lossless(codec) && isUtf8(refresh)
    requires |OauthMessage(access, refresh, expiry)| <= ISIZE_MAX
    requires STATE_KEY in db.rows && codec.decode(db.rows[STATE_KEY]).Some? ==>
      var r := InjectInto(codec.decode(db.rows[STATE_KEY]).value, access, refresh, expiry);
      r.Success? ==> |r.value| <= ISIZE_MAX
    modifies db
    ensures injected.Success? || injected == Failure(MarkerFailed) ==> token == Success(refresh)
    ensures injected.Failure? && injected.error != MarkerFailed ==> db.rows == old(db.rows)
  {
    hide InjectInto, ExtractFrom, OauthMessage;
    ghost var before := db.rows;
    injected := db.InjectToken(codec, access, refresh, expiry, updates, marks);
    token := db.ExtractRefreshToken(codec, isUtf8);
    if injected.Success? || injected == Failure(MarkerFailed) {
      InjectThenExtract(codec.decode(before[STATE_KEY]).value, access, refresh, expiry, [], [], 0, 0);
    }
  }
}
