/** The configuration file, its migration and its cache: modules/config.rs. */
module ConfigCache {
  import opened Wrappers

  const CACHE_TTL_SECONDS: int := 30

  /** A JSON value as far as the migration looks into it. */
  datatype Json = Obj(fields: map<string, Json>) | Str(text: string) | Plain(text: string)

  type Mapping = map<string, Json>

  // ---------- The migration of the legacy mappings ----------

  function Member(v: Json, key: string): Option<Json> {
    if v.Obj? && key in v.fields then Some(v.fields[key]) else None
  }

  function ObjectAt(v: Json, key: string): Option<Mapping> {
    match Member(v, key)
    case Some(Obj(fields)) => Some(fields)
    case _ => None
  }

  predicate IsSeries(key: string) {
    |key| >= 7 && key[|key| - 7..] == "-series"
  }

  const LEGACY_FIELDS: set<string> := {"anthropic_mapping", "openai_mapping"}

  /** The legacy fields that are removed: one that is not an object stays where it is. */
  function LegacyObjects(proxy: Json): set<string> {
    set field | field in LEGACY_FIELDS && ObjectAt(proxy, field).Some?
  }

  predicate HasLegacy(v: Json) {
    Member(v, "proxy").Some? && LegacyObjects(Member(v, "proxy").value) != {}
  }

  /** Which names are series names, and which files are legacy files. */
  lemma LegacyMeaning(v: Json, key: string)
    ensures IsSeries(key) <==> exists stem: string :: key == stem + "-series"
    ensures HasLegacy(v) <==>
      && v.Obj? && "proxy" in v.fields && v.fields["proxy"].Obj?
      && exists field :: field in {"anthropic_mapping", "openai_mapping"} && field in v.fields["proxy"].fields
           && v.fields["proxy"].fields[field].Obj?
  {
    if IsSeries(key) {
      assert key == key[..|key| - 7] + "-series";
    }
    if stem: string :| key == stem + "-series" {
      assert key[|key| - 7..] == "-series";
    }
    if HasLegacy(v) {
      var field :| field in LegacyObjects(v.fields["proxy"]);
      assert v.fields["proxy"].fields[field].Obj?;
    }
    if v.Obj? && "proxy" in v.fields && v.fields["proxy"].Obj? {
      var fields := v.fields["proxy"].fields;
      if field :| field in {"anthropic_mapping", "openai_mapping"} && field in fields && fields[field].Obj? {
        assert field in LegacyObjects(v.fields["proxy"]);
      }
    }
  }

  function Adopted(mapping: Mapping, legacy: Mapping): Mapping {
    mapping + map k | k in legacy && !IsSeries(k) && k !in mapping :: legacy[k]
  }

  /** All the mappings of a proxy section in one. */
  function Collected(proxy: Json): Mapping {
    Adopted(Adopted(ObjectAt(proxy, "custom_mapping").GetOr(map[]), ObjectAt(proxy, "anthropic_mapping").GetOr(map[])),
            ObjectAt(proxy, "openai_mapping").GetOr(map[]))
  }

  function Migrated(v: Json): Json {
    if !HasLegacy(v) then v
    else
      var proxy := v.fields["proxy"];
      Obj(v.fields["proxy" := Obj((proxy.fields - LegacyObjects(proxy))["custom_mapping" := Obj(Collected(proxy))])])
  }

  lemma AdoptedStep(mapping: Mapping, part: Mapping, k: string, target: Json)
    requires k !in part
    ensures Adopted(mapping, part[k := target]) ==
      (if !IsSeries(k) && k !in mapping then Adopted(mapping, part)[k := target] else Adopted(mapping, part))
    ensures k in Adopted(mapping, part) <==> k in mapping
  {}

  method Adopt(mapping: Mapping, legacy: Mapping) returns (r: Mapping)
    ensures r == Adopted(mapping, legacy)
  {
    r := mapping;
    var todo := legacy.Keys;
    ghost var done: Mapping := map[];
    while todo != {}
      invariant todo <= legacy.Keys && done == legacy - todo
      invariant r == Adopted(mapping, done)
    {
      var k :| k in todo;
      AdoptedStep(mapping, done, k, legacy[k]);
      if !IsSeries(k) && k !in r {
        r := r[k := legacy[k]];
      }
      todo := todo - {k};
      done := done[k := legacy[k]];
    }
    assert done == legacy;
  }

  method MigrateMappings(v: Json) returns (r: Json, modified: bool)
    ensures r == Migrated(v) && modified == HasLegacy(v)
  {
    modified := false;
    r := v;
    if Member(v, "proxy").Some? {
      var before := v.fields["proxy"];
      var proxy := before;
      var customMapping := ObjectAt(proxy, "custom_mapping").GetOr(map[]);
      ghost var legacy := LegacyObjects(proxy);
      var anthropic := ObjectAt(proxy, "anthropic_mapping");
      if anthropic.Some? {
        customMapping := Adopt(customMapping, anthropic.value);
        proxy := Obj(proxy.fields - {"anthropic_mapping"});
        modified := true;
        assert "anthropic_mapping" in legacy;
      }
      var openai := ObjectAt(proxy, "openai_mapping");
      assert openai == ObjectAt(before, "openai_mapping");
      if openai.Some? {
        customMapping := Adopt(customMapping, openai.value);
        proxy := Obj(proxy.fields - {"openai_mapping"});
        modified := true;
        assert "openai_mapping" in legacy;
      }
      if modified {
        assert proxy.fields == before.fields - legacy;
        assert customMapping == Collected(before);
        proxy := Obj(proxy.fields["custom_mapping" := Obj(customMapping)]);
        r := Obj(v.fields["proxy" := proxy]);
      } else {
        assert legacy == {};
      }
    }
  }

  /** Where a key's target comes from: the custom mapping, then the Anthropic one, then the OpenAI
      one, the last two only for keys that are not series names. */
  function Target(proxy: Json, k: string): Option<Json> {
    var custom := ObjectAt(proxy, "custom_mapping").GetOr(map[]);
    var anthropic := ObjectAt(proxy, "anthropic_mapping").GetOr(map[]);
    var openai := ObjectAt(proxy, "openai_mapping").GetOr(map[]);
    if k in custom then Some(custom[k])
    else if IsSeries(k) then None
    else if k in anthropic then Some(anthropic[k])
    else if k in openai then Some(openai[k])
    else None
  }

  lemma CollectedTargets(proxy: Json, k: string)
    ensures var c := Collected(proxy);
      Target(proxy, k) == if k in c then Some(c[k]) else None
  {}

  /** A migration moves every target to the custom mapping and touches nothing else; a second one
      finds nothing to do. */
  lemma MigrationMeaning(v: Json, k: string, field: string)
    requires HasLegacy(v)
    ensures Member(Migrated(v), "proxy").Some? && ObjectAt(Member(Migrated(v), "proxy").value, "custom_mapping").Some?
    ensures var before, after := Member(v, "proxy").value, Member(Migrated(v), "proxy").value;
      var mapping := ObjectAt(after, "custom_mapping").value;
      && Target(before, k) == (if k in mapping then Some(mapping[k]) else None)
      && Target(after, k) == Target(before, k)
      && (field != "custom_mapping" && field !in LegacyObjects(before) ==>
          Member(after, field) == Member(before, field))
      && (field in LegacyObjects(before) ==> Member(after, field) == None)
      && (field != "proxy" ==> Member(Migrated(v), field) == Member(v, field))
    ensures !HasLegacy(Migrated(v)) && Migrated(Migrated(v)) == Migrated(v)
  {
    var before, after := Member(v, "proxy").value, Member(Migrated(v), "proxy").value;
    CollectedTargets(before, k);
    forall f ensures f !in LegacyObjects(after) {
      if f in LEGACY_FIELDS {
        assert f in LegacyObjects(before) <==> ObjectAt(before, f).Some?;
      }
    }
    assert LegacyObjects(after) == {};
    assert ObjectAt(after, "custom_mapping") == Some(Collected(before));
    assert ObjectAt(after, "anthropic_mapping") == None == ObjectAt(after, "openai_mapping") by {
      assert "anthropic_mapping" !in LegacyObjects(after) && "openai_mapping" !in LegacyObjects(after);
    }
  }

  // ---------- Loading and saving ----------

  datatype AppConfig = AppConfig(customMapping: map<string, string>, rest: string)

  datatype ConfigError = ReadFailed | ParseFailed | ConvertFailed | SerializeFailed | WriteFailed | RenameFailed

  /** What the file system lets a save do: write its temporary file and rename it, the first only, or
      neither. */
  datatype Writing = Renamed | Written | Refused

  /** serde: text to JSON, JSON to a configuration, a configuration to text; and `AppConfig::new()`. */
  datatype Codec = Codec(parse: string -> Option<Json>, convert: Json -> Option<AppConfig>,
                         render: AppConfig -> Option<string>, defaults: AppConfig)

  /** A printed configuration reads back as itself; the legacy fields are not fields of it. */
  ghost predicate ReadsBack(codec: Codec) {
    forall c :: codec.render(c).Some? ==>
      var v := codec.parse(codec.render(c).value);
      v.Some? && !HasLegacy(v.value) && codec.convert(v.value) == Some(c)
  }

  predicate SameTarget(text: map<string, string>, json: Mapping, k: string) {
    (k in text <==> k in json) && (k in text ==> json[k] == Str(text[k]))
  }

  /** Conversion takes the custom mapping over as it stands, and insists on texts. */
  ghost predicate ReadsMappings(codec: Codec) {
    forall v, k :: codec.convert(v).Some? && Member(v, "proxy").Some? && v.fields["proxy"].Obj? ==>
      SameTarget(codec.convert(v).value.customMapping, ObjectAt(v.fields["proxy"], "custom_mapping").GetOr(map[]), k)
  }

  datatype File = Missing | Unreadable | Text(content: string)

  datatype Cached = Cached(config: AppConfig, loadedAt: int)

  datatype State = State(file: File, cache: Option<Cached>)

  function LoadResult(codec: Codec, file: File): Result<AppConfig, ConfigError> {
    match file
    case Missing => Success(codec.defaults)
    case Unreadable => Failure(ReadFailed)
    case Text(content) =>
      match codec.parse(content)
      case None => Failure(ParseFailed)
      case Some(v) =>
        match codec.convert(Migrated(v))
        case None => Failure(ConvertFailed)
        case Some(c) => Success(c)
  }

  predicate NeedsRewrite(codec: Codec, file: File) {
    && file.Text? && codec.parse(file.content).Some? && HasLegacy(codec.parse(file.content).value)
    && LoadResult(codec, file).Success?
  }

  function SaveResult(codec: Codec, c: AppConfig, writes: Writing): Result<(), ConfigError> {
    if codec.render(c).None? then Failure(SerializeFailed)
    else
      match writes
      case Refused => Failure(WriteFailed)
      case Written => Failure(RenameFailed)
      case Renamed => Success(())
  }

  /** A failing save leaves the file and the cache; nothing reads its temporary file. */
  function AfterSave(codec: Codec, s: State, c: AppConfig, writes: Writing): State {
    if SaveResult(codec, c, writes).Success? then State(Text(codec.render(c).value), None) else s
  }

  function AfterLoad(codec: Codec, s: State, writes: Writing): State {
    if NeedsRewrite(codec, s.file) then AfterSave(codec, s, LoadResult(codec, s.file).value, writes) else s
  }

  predicate CacheHit(s: State, now: int) {
    s.cache.Some? && now - s.cache.value.loadedAt < CACHE_TTL_SECONDS
  }

  /** What a cached load returns. */
  function Answer(codec: Codec, s: State, now: int): Result<AppConfig, ConfigError> {
    if CacheHit(s, now) then Success(s.cache.value.config) else LoadResult(codec, s.file)
  }

  function AfterCachedLoad(codec: Codec, s: State, now: int, writes: Writing): State {
    var loaded := LoadResult(codec, s.file);
    if CacheHit(s, now) then s
    else if loaded.Failure? then AfterLoad(codec, s, writes)
    else AfterLoad(codec, s, writes).(cache := Some(Cached(loaded.value, now)))
  }

  function UpdateResult(codec: Codec, s: State, updater: AppConfig -> AppConfig, writes: Writing)
    : Result<AppConfig, ConfigError>
  {
    var loaded :- LoadResult(codec, s.file);
    var _ :- SaveResult(codec, updater(loaded), writes);
    Success(updater(loaded))
  }

  function AfterUpdate(codec: Codec, s: State, updater: AppConfig -> AppConfig, rewrites: Writing,
                       writes: Writing): State {
    var s' := AfterLoad(codec, s, rewrites);
    if LoadResult(codec, s.file).Failure? then s'
    else AfterSave(codec, s', updater(LoadResult(codec, s.file).value), writes)
  }

  class ConfigFile {
    const codec: Codec
    var file: File
    var cache: Option<Cached>

    constructor (codec: Codec, file: File)
      ensures this.codec == codec && Value() == State(file, None)
    {
      this.codec, this.file, this.cache := codec, file, None;
    }

    ghost function Value(): State
      reads this
    {
      State(file, cache)
    }

    method InvalidateConfigCache()
      modifies this`cache
      ensures cache == None
    {
      cache := None;
    }

    method SaveConfig(config: AppConfig, writes: Writing) returns (r: Result<(), ConfigError>)
      modifies this
      ensures r == SaveResult(codec, config, writes)
      ensures Value() == AfterSave(codec, old(Value()), config, writes)
    {
      var content := codec.render(config);
      if content.None? {
        return Failure(SerializeFailed);
      }
      if writes.Refused? {
        return Failure(WriteFailed);
      }
      if writes.Written? {
        return Failure(RenameFailed);
      }
      file := Text(content.value);
      InvalidateConfigCache();
      return Success(());
    }

    method LoadConfig(writes: Writing) returns (r: Result<AppConfig, ConfigError>)
      modifies this
      ensures r == LoadResult(codec, old(file))
      ensures Value() == AfterLoad(codec, old(Value()), writes)
    {
      hide Migrated, HasLegacy;
      if file.Missing? {
        return Success(codec.defaults);
      }
      if file.Unreadable? {
        return Failure(ReadFailed);
      }
      var parsed := codec.parse(file.content);
      if parsed.None? {
        return Failure(ParseFailed);
      }
      var v, modified := MigrateMappings(parsed.value);
      var config := codec.convert(v);
      if config.None? {
        return Failure(ConvertFailed);
      }
      if modified {
        var _ := SaveConfig(config.value, writes);
      }
      return Success(config.value);
    }

    method LoadConfigCached(now: int, writes: Writing) returns (r: Result<AppConfig, ConfigError>)
      modifies this
      ensures r == Answer(codec, old(Value()), now)
      ensures Value() == AfterCachedLoad(codec, old(Value()), now, writes)
    {
      if cache.Some? && now - cache.value.loadedAt < CACHE_TTL_SECONDS {
        return Success(cache.value.config);
      }
      var config :- LoadConfig(writes);
      cache := Some(Cached(config, now));
      return Success(config);
    }

    method UpdateConfig(updater: AppConfig -> AppConfig, rewrites: Writing, writes: Writing)
      returns (r: Result<AppConfig, ConfigError>)
      modifies this
      ensures r == UpdateResult(codec, old(Value()), updater, writes)
      ensures Value() == AfterUpdate(codec, old(Value()), updater, rewrites, writes)
      ensures r.Success? ==>
        && LoadResult(codec, old(file)).Success? && r.value == updater(LoadResult(codec, old(file)).value)
        && codec.render(r.value).Some? && file == Text(codec.render(r.value).value) && cache == None
      ensures r.Failure? && ReadsBack(codec) ==> LoadResult(codec, file) == LoadResult(codec, old(file))
    {
      if ReadsBack(codec) {
        LoadSettles(codec, Value(), rewrites);
      }
      hide NeedsRewrite, LoadResult;
      var config :- LoadConfig(rewrites);
      config := updater(config);
      var _ :- SaveConfig(config, writes);
      return Success(config);
    }
  }

  /** A load that rewrites a migrated file, or fails to, leaves what the file means alone. */
  lemma LoadSettles(codec: Codec, s: State, writes: Writing)
    requires ReadsBack(codec)
    ensures var s' := AfterLoad(codec, s, writes);
      && LoadResult(codec, s'.file) == LoadResult(codec, s.file)
      && (s'.file != s.file ==> !NeedsRewrite(codec, s'.file))
  {
    hide HasLegacy;
  }

  lemma SavedReadsBack(codec: Codec, s: State, c: AppConfig, writes: Writing)
    requires ReadsBack(codec) && SaveResult(codec, c, writes).Success?
    ensures LoadResult(codec, AfterSave(codec, s, c, writes).file) == Success(c)
    ensures !NeedsRewrite(codec, AfterSave(codec, s, c, writes).file)
  {
    hide HasLegacy;
  }

  /** From a legacy file to the running configuration: each key has its target. */
  lemma LegacyFileLoads(codec: Codec, content: string, k: string)
    requires ReadsMappings(codec) && NeedsRewrite(codec, Text(content))
    ensures var mapping := LoadResult(codec, Text(content)).value.customMapping;
      Target(codec.parse(content).value.fields["proxy"], k) == if k in mapping then Some(Str(mapping[k])) else None
  {
    hide Target, Migrated, IsSeries;
    var v := codec.parse(content).value;
    MigrationMeaning(v, k, k);
    var w := Migrated(v);
    assert w.fields["proxy"].Obj?;
    var c := codec.convert(w).value;
    assert SameTarget(c.customMapping, ObjectAt(w.fields["proxy"], "custom_mapping").GetOr(map[]), k);
  }

  // ---------- Runs ----------

  /** `Edit` is a writer that does not go through these functions. */
  datatype Op =
    | Load(writes: Writing)
    | LoadCached(writes: Writing)
    | Save(config: AppConfig, writes: Writing)
    | Update(updater: AppConfig -> AppConfig, rewrites: Writing, writes: Writing)
    | Invalidate
    | Edit(file: File)

  datatype Event = Event(now: int, op: Op)

  function After(codec: Codec, s: State, e: Event): State {
    match e.op
    case Load(writes) => AfterLoad(codec, s, writes)
    case LoadCached(writes) => AfterCachedLoad(codec, s, e.now, writes)
    case Save(config, writes) => AfterSave(codec, s, config, writes)
    case Update(updater, rewrites, writes) => AfterUpdate(codec, s, updater, rewrites, writes)
    case Invalidate => s.(cache := None)
    case Edit(file) => s.(file := file)
  }

  function AfterAll(codec: Codec, s: State, es: seq<Event>): State
    decreases |es|
  {
    if es == [] then s else After(codec, AfterAll(codec, s, es[..|es| - 1]), es[|es| - 1])
  }

  /** The cache, if filled, holds what the file says. */
  predicate Coherent(codec: Codec, s: State) {
    s.cache.Some? ==> LoadResult(codec, s.file) == Success(s.cache.value.config)
  }

  predicate NoEdit(es: seq<Event>) {
    forall i :: 0 <= i < |es| ==> !es[i].op.Edit?
  }

  lemma StepKeepsCoherent(codec: Codec, s: State, e: Event)
    requires ReadsBack(codec) && Coherent(codec, s) && !e.op.Edit?
    ensures Coherent(codec, After(codec, s, e))
  {
    hide LoadResult, NeedsRewrite;
    match e.op
    case Load(writes) => LoadSettles(codec, s, writes);
    case LoadCached(writes) => LoadSettles(codec, s, writes);
    case Update(_, rewrites, _) => LoadSettles(codec, s, rewrites);
    case _ =>
  }

  /** When every writer goes through these functions, the cache never shows: at any time a cached
      load returns what an uncached one would. */
  lemma {:induction false} CacheIsTransparent(codec: Codec, file: File, es: seq<Event>, now: int)
    requires ReadsBack(codec) && NoEdit(es)
    ensures var s := AfterAll(codec, State(file, None), es);
      Coherent(codec, s) && Answer(codec, s, now) == LoadResult(codec, s.file)
    decreases |es|
  {
    if es != [] {
      var front := es[..|es| - 1];
      CacheIsTransparent(codec, file, front, now);
      hide LoadResult, NeedsRewrite;
      StepKeepsCoherent(codec, AfterAll(codec, State(file, None), front), es[|es| - 1]);
    }
  }

  predicate OnlyReads(es: seq<Event>) {
    forall i :: 0 <= i < |es| ==> es[i].op.Load? || es[i].op.LoadCached? || es[i].op.Invalidate?
  }

  /** A saved configuration is what every later cached load returns, until the next write. */
  lemma {:induction false} SaveThenReads(codec: Codec, s: State, c: AppConfig, es: seq<Event>, now: int)
    requires ReadsBack(codec) && SaveResult(codec, c, Renamed).Success? && OnlyReads(es)
    ensures var s' := AfterAll(codec, AfterSave(codec, s, c, Renamed), es);
      s'.file == Text(codec.render(c).value) && Coherent(codec, s') && Answer(codec, s', now) == Success(c)
    decreases |es|
  {
    var saved := AfterSave(codec, s, c, Renamed);
    SavedReadsBack(codec, s, c, Renamed);
    hide LoadResult, NeedsRewrite;
    if es != [] {
      var front, e := es[..|es| - 1], es[|es| - 1];
      SaveThenReads(codec, s, c, front, now);
      assert e == es[|es| - 1];
      StepKeepsCoherent(codec, AfterAll(codec, saved, front), e);
    }
  }

  /** An update succeeds exactly when the file loads, the new configuration can be rendered, and the save goes
      through. Then it is what the file holds and what every later cached load returns, until the next write;
      otherwise the file means what it meant. */
  lemma UpdateThenReads(codec: Codec, s: State, updater: AppConfig -> AppConfig, rewrites: Writing, writes: Writing,
                        es: seq<Event>, now: int)
    requires ReadsBack(codec) && OnlyReads(es)
    ensures var r := UpdateResult(codec, s, updater, writes);
      var s' := AfterUpdate(codec, s, updater, rewrites, writes);
      var end := AfterAll(codec, s', es);
      var before := LoadResult(codec, s.file);
      && (r.Success? <==> before.Success? && codec.render(updater(before.value)).Some? && writes == Renamed)
      && if r.Success?
         then
           && r.value == updater(before.value) && s'.file == end.file == Text(codec.render(r.value).value)
           && Answer(codec, end, now) == Success(r.value)
         else LoadResult(codec, s'.file) == before
  {
    hide HasLegacy, LoadResult, NeedsRewrite;
    var before := LoadResult(codec, s.file);
    LoadSettles(codec, s, rewrites);
    if before.Success? && SaveResult(codec, updater(before.value), writes).Success? {
      SaveThenReads(codec, AfterLoad(codec, s, rewrites), updater(before.value), es, now);
    }
  }

  /** What a load answers: the defaults without a file, an error for a file that cannot be read or parsed, and
      a file without legacy mappings as it stands. */
  lemma LoadAnswers(codec: Codec, file: File)
    ensures var r := LoadResult(codec, file);
      match file
      case Missing => r == Success(codec.defaults)
      case Unreadable => r == Failure(ReadFailed)
      case Text(content) =>
        match codec.parse(content)
        case None => r == Failure(ParseFailed)
        case Some(v) =>
          (forall proxy, field | Member(v, "proxy") == Some(proxy) && field in {"anthropic_mapping", "openai_mapping"}
             :: ObjectAt(proxy, field).None?) ==>
            if codec.convert(v).Some? then r == Success(codec.convert(v).value) else r == Failure(ConvertFailed)
  {
    if file.Text? && codec.parse(file.content).Some? {
      var v := codec.parse(file.content).value;
      if HasLegacy(v) {
        var field :| field in LegacyObjects(v.fields["proxy"]);
        assert ObjectAt(v.fields["proxy"], field).Some?;
      }
    }
  }

  /** A legacy file that loads is rewritten when the file system allows it; any other is left alone. */
  lemma LoadRewrites(codec: Codec, s: State, writes: Writing)
    ensures var r, s' := LoadResult(codec, s.file), AfterLoad(codec, s, writes);
      if r.Success? && s.file.Text? && HasLegacy(codec.parse(s.file.content).value)
         && codec.render(r.value).Some? && writes == Renamed
      then s' == State(Text(codec.render(r.value).value), None)
      else s' == s
  {
    hide HasLegacy, Migrated;
  }

  // ---------- Other writers ----------

  ghost predicate Clocked(es: seq<Event>, now: int) {
    forall i, j :: 0 <= i <= j < |es| ==> es[i].now <= es[j].now <= now
  }

  /** The cache was filled by event `n - 1`, with what the file said after it. */
  ghost predicate FilledBy(codec: Codec, start: State, es: seq<Event>, cached: Cached, n: nat) {
    && 0 < n <= |es| && es[n - 1].now == cached.loadedAt
    && LoadResult(codec, AfterAll(codec, start, es[..n]).file) == Success(cached.config)
  }

  lemma {:induction false} CacheHasSource(codec: Codec, start: State, es: seq<Event>) returns (n: nat)
    requires ReadsBack(codec) && start.cache == None
    ensures var s := AfterAll(codec, start, es); s.cache.Some? ==> FilledBy(codec, start, es, s.cache.value, n)
    decreases |es|
  {
    n := 0;
    if es != [] {
      var front, e := es[..|es| - 1], es[|es| - 1];
      n := CacheHasSource(codec, start, front);
      var before := AfterAll(codec, start, front);
      var after := AfterAll(codec, start, es);
      hide LoadResult, NeedsRewrite, AfterAll;
      if after.cache.Some? {
        if after.cache == before.cache {
          assert es[..n] == front[..n];
        } else {
          LoadSettles(codec, before, e.op.writes);
          n := |es|;
          assert es[..n] == es;
        }
      }
    }
  }

  /** Whoever else writes the file, a cached load is behind by less than 30 seconds: it returns what
      the file said now or after some event less than 30 seconds ago. */
  lemma StaleBelowTtl(codec: Codec, file: File, es: seq<Event>, now: int) returns (n: nat)
    requires ReadsBack(codec) && Clocked(es, now)
    ensures n <= |es| && (n == |es| || (0 < n && 0 <= now - es[n - 1].now < 30))
    ensures Answer(codec, AfterAll(codec, State(file, None), es), now) ==
      LoadResult(codec, AfterAll(codec, State(file, None), es[..n]).file)
  {
    hide LoadResult, AfterAll;
    var s := AfterAll(codec, State(file, None), es);
    n := CacheHasSource(codec, State(file, None), es);
    if !CacheHit(s, now) {
      n := |es|;
      assert es[..n] == es;
    }
  }

  /** The bound is tight: a load at `t` hides an edit right after it until `t + 30`, and no longer. */
  lemma EditShowsAfterTtl(codec: Codec, c: AppConfig, edited: File, t: int, now: int)
    requires ReadsBack(codec) && codec.render(c).Some?
    ensures Answer(codec, AfterAll(codec, State(Text(codec.render(c).value), None),
                                   [Event(t, LoadCached(Renamed)), Event(t, Edit(edited))]), now) ==
      if now - t < 30 then Success(c) else LoadResult(codec, edited)
  {
    var start := State(Text(codec.render(c).value), None);
    var load, edit := Event(t, LoadCached(Renamed)), Event(t, Edit(edited));
    SavedReadsBack(codec, start, c, Renamed);
    hide LoadResult, NeedsRewrite;
    assert [load, edit][..1] == [load] && [load][..0] == [];
    assert AfterAll(codec, start, [load]) == After(codec, start, load);
    assert AfterAll(codec, start, [load, edit]) == After(codec, After(codec, start, load), edit);
  }
}
