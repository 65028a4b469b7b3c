/**
 The configuration store (lib/config_manager.py): the model catalog and the
 four global policy values, parsed from the raw YAML document with defaults
 filled in, validated, looked up, adjusted by the detected host platform and
 written back to a dict for saving.

 A YAML mapping is a Python dict, which keeps insertion order; the catalog is
 therefore a sequence of (key, model) entries, and a key that is absent from
 a raw mapping is `None`.
 */
module Config {
  import opened Wrappers
  import opened Text

  // ------------------------------------------------------------- data

  /** A temperature as written in the YAML file. It is passed through
      untouched, so its numeric value never matters here. */
  datatype Temperature = Temperature(literal: string)

  /** One configured model: the runtime's qualified name and tuning values. */
  datatype ModelConfig = ModelConfig(
    name: string,
    description: string,
    maxContext: Option<int>,
    temperature: Option<Temperature>)

  /** A catalog entry: the operator-facing key and its model. */
  datatype Entry = Entry(key: string, model: ModelConfig)

  /** The catalog in the order the YAML file lists it. */
  type Catalog = seq<Entry>

  datatype AppConfig = AppConfig(
    models: Catalog,
    ollamaHost: string,
    maxLoadedModels: int,
    autoStopInactive: bool,
    inactiveTimeoutMinutes: int)

  const DefaultHost: string := "http://localhost:11434"
  const DefaultMaxLoaded: int := 2
  const DefaultAutoStop: bool := true
  const DefaultTimeoutMinutes: int := 30

  /** A model mapping as found under `models:`; every field may be missing. */
  datatype RawModel = RawModel(
    name: Option<string>,
    description: Option<string>,
    maxContext: Option<int>,
    temperature: Option<Temperature>)

  datatype RawEntry = RawEntry(key: string, model: RawModel)

  /** The `global:` mapping; every field may be missing. */
  datatype RawGlobal = RawGlobal(
    ollamaHost: Option<string>,
    maxLoadedModels: Option<int>,
    autoStopInactive: Option<bool>,
    inactiveTimeoutMinutes: Option<int>)

  const NoGlobals := RawGlobal(None, None, None, None)

  /** The loaded YAML document: an optional `global:` and the `models:`
      mapping (an absent `models:` is the empty sequence). */
  datatype RawConfig = RawConfig(global: Option<RawGlobal>, models: seq<RawEntry>)

  /** Reading `model_data['name']` of a model without a name raises. */
  datatype ParseError = MissingName(key: string)

  predicate HasKey(c: Catalog, key: string) {
    exists i :: 0 <= i < |c| && c[i].key == key
  }

  /** Dict keys are distinct. */
  predicate UniqueKeys(c: Catalog) {
    forall i, j :: 0 <= i < j < |c| ==> c[i].key != c[j].key
  }

  // ---------------------------------------------------------- parsing

  /** `_parse_config`, the `models:` loop: one model per key, in order, with
      an empty description and absent tuning values when the YAML omits
      them; the first model without a name aborts the parse. */
  function ParseModels(raw: seq<RawEntry>): (r: Result<Catalog, ParseError>)
    ensures r.Ok? <==> forall i :: 0 <= i < |raw| ==> raw[i].model.name.Some?
    ensures r.Ok? ==> |r.value| == |raw|
    ensures r.Ok? ==> forall i :: 0 <= i < |raw| ==>
              && r.value[i].key == raw[i].key
              && r.value[i].model.name == raw[i].model.name.value
              && r.value[i].model.description == raw[i].model.description.GetOr("")
              && r.value[i].model.maxContext == raw[i].model.maxContext
              && r.value[i].model.temperature == raw[i].model.temperature
    ensures r.Err? ==> exists i :: (0 <= i < |raw| && raw[i].model.name.None?
              && r.error == MissingName(raw[i].key)
              && forall j :: 0 <= j < i ==> raw[j].model.name.Some?)
  {
    if |raw| == 0 then Ok([])
    else
      var m := raw[0].model;
      if m.name.None? then Err(MissingName(raw[0].key))
      else
        var head := Entry(raw[0].key, ModelConfig(m.name.value, m.description.GetOr(""),
                                                  m.maxContext, m.temperature));
        match ParseModels(raw[1..])
        case Err(e) =>
          assert raw[1..][0] == raw[1];
          Err(e)
        case Ok(rest) => Ok([head] + rest)
  }

  /** `_parse_config`: the catalog plus the global values, each defaulted
      when `global:` or the field itself is absent. */
  function ParseConfig(raw: RawConfig): (r: Result<AppConfig, ParseError>)
    ensures r.Ok? <==> ParseModels(raw.models).Ok?
    ensures r.Ok? ==> r.value.models == ParseModels(raw.models).value
    ensures r.Err? ==> r.error == ParseModels(raw.models).error
    ensures r.Ok? ==> var g := raw.global.GetOr(NoGlobals);
              && (g.ollamaHost.None? ==> r.value.ollamaHost == DefaultHost)
              && (g.ollamaHost.Some? ==> r.value.ollamaHost == g.ollamaHost.value)
              && (g.maxLoadedModels.None? ==> r.value.maxLoadedModels == DefaultMaxLoaded)
              && (g.maxLoadedModels.Some? ==> r.value.maxLoadedModels == g.maxLoadedModels.value)
              && (g.autoStopInactive.None? ==> r.value.autoStopInactive == DefaultAutoStop)
              && (g.autoStopInactive.Some? ==> r.value.autoStopInactive == g.autoStopInactive.value)
              && (g.inactiveTimeoutMinutes.None? ==> r.value.inactiveTimeoutMinutes == DefaultTimeoutMinutes)
              && (g.inactiveTimeoutMinutes.Some? ==> r.value.inactiveTimeoutMinutes == g.inactiveTimeoutMinutes.value)
  {
    var g := raw.global.GetOr(NoGlobals);
    match ParseModels(raw.models)
    case Err(e) => Err(e)
    case Ok(models) =>
      Ok(AppConfig(models,
                   g.ollamaHost.GetOr(DefaultHost),
                   g.maxLoadedModels.GetOr(DefaultMaxLoaded),
                   g.autoStopInactive.GetOr(DefaultAutoStop),
                   g.inactiveTimeoutMinutes.GetOr(DefaultTimeoutMinutes)))
  }

  /** Parsed keys are the document's keys, so a parsed catalog keeps the
      dict's distinct keys. */
  lemma ParsedKeysUnique(raw: RawConfig)
    requires forall i, j :: 0 <= i < j < |raw.models| ==> raw.models[i].key != raw.models[j].key
    requires ParseConfig(raw).Ok?
    ensures UniqueKeys(ParseConfig(raw).value.models)
  {
  }

  // ---------------------------------------------- built-in documents

  /** The single model of the fallback document. */
  const MinimalCatalog: Catalog :=
    [Entry("qwen", ModelConfig("qwen2.5-coder:latest", "Code completion", None, None))]

  /** The three models of the default document, in its order. */
  const DefaultCatalog: Catalog := [
    Entry("qwen", ModelConfig("qwen2.5-coder:latest", "Code completion and programming", None, None)),
    Entry("deepseek", ModelConfig("deepseek-coder:latest", "Technical reasoning and analysis", None, None)),
    Entry("mistral", ModelConfig("mistral:latest", "Documentation and architecture", None, None))]

  /** `_get_minimal_config`: the fallback used when the file cannot be read. */
  function MinimalConfig(): (raw: RawConfig)
    ensures ParseConfig(raw).Ok?
    ensures |ParseConfig(raw).value.models| == 1
    ensures ParseConfig(raw).value.maxLoadedModels == 1
    ensures !ParseConfig(raw).value.autoStopInactive
    ensures ValidateConfig(ParseConfig(raw).value) == []
  {
    var raw := RawConfig(Some(RawGlobal(Some(DefaultHost), Some(1), Some(false), Some(60))),
                         SavedModels(MinimalCatalog));
    BuiltInParses(raw, MinimalCatalog);
    raw
  }

  /** `_get_default_models_config`: the document written when no file exists. */
  function DefaultModelsConfig(): (raw: RawConfig)
    ensures ParseConfig(raw).Ok?
    ensures ParseConfig(raw).value.maxLoadedModels == DefaultMaxLoaded
    ensures |ParseConfig(raw).value.models| == 3
    ensures HasKey(ParseConfig(raw).value.models, "qwen")
    ensures HasKey(ParseConfig(raw).value.models, "deepseek")
    ensures HasKey(ParseConfig(raw).value.models, "mistral")
    ensures UniqueKeys(ParseConfig(raw).value.models)
    ensures ValidateConfig(ParseConfig(raw).value) == []
  {
    var raw := RawConfig(Some(RawGlobal(Some(DefaultHost), Some(2), Some(true), Some(30))),
                         SavedModels(DefaultCatalog));
    BuiltInParses(raw, DefaultCatalog);
    DefaultCatalogShape();
    raw
  }

  lemma DefaultCatalogShape()
    ensures |DefaultCatalog| == 3
    ensures HasKey(DefaultCatalog, "qwen") && HasKey(DefaultCatalog, "deepseek")
            && HasKey(DefaultCatalog, "mistral")
    ensures UniqueKeys(DefaultCatalog)
    ensures forall i :: 0 <= i < |DefaultCatalog| ==> DefaultCatalog[i].model.name != ""
  {
    var c := DefaultCatalog;
    assert c[0].key == "qwen" && c[1].key == "deepseek" && c[2].key == "mistral";
    assert |c[0].key| == 4 && |c[1].key| == 8 && |c[2].key| == 7;
  }

  /** A built-in document with all four globals parses to its catalog, and
      it is valid when its models are named and its capacity is positive. */
  lemma BuiltInParses(raw: RawConfig, catalog: Catalog)
    requires raw.global.Some? && raw.global.value.maxLoadedModels.Some?
    requires raw.models == SavedModels(catalog)
    ensures ParseConfig(raw).Ok? && ParseConfig(raw).value.models == catalog
    ensures ParseConfig(raw).value.maxLoadedModels == raw.global.value.maxLoadedModels.value
    ensures ParseConfig(raw).value.autoStopInactive == raw.global.value.autoStopInactive.GetOr(DefaultAutoStop)
    ensures |catalog| > 0 && (forall i :: 0 <= i < |catalog| ==> catalog[i].model.name != "")
            && raw.global.value.maxLoadedModels.value >= 1
            ==> ValidateConfig(ParseConfig(raw).value) == []
  {
    SavedModelsParse(catalog);
  }

  // ------------------------------------------------------------ lookups

  /** `get_model`: the model stored under `key`, or `None` for an unknown key. */
  function GetModel(c: Catalog, key: string): (r: Option<ModelConfig>)
    ensures r.None? <==> !HasKey(c, key)
    ensures r.Some? ==> exists i :: 0 <= i < |c| && c[i] == Entry(key, r.value)
                                    && forall j :: 0 <= j < i ==> c[j].key != key
  {
    if |c| == 0 then None
    else if c[0].key == key then
      assert c[0] == Entry(key, c[0].model);
      Some(c[0].model)
    else
      var r := GetModel(c[1..], key);
      assert HasKey(c, key) ==> HasKey(c[1..], key) by {
        if HasKey(c, key) {
          var i :| 0 <= i < |c| && c[i].key == key;
          assert c[1..][i - 1].key == key;
        }
      }
      if r.Some? then
        var i :| 0 <= i < |c| - 1 && c[1..][i] == Entry(key, r.value)
                 && forall j :: 0 <= j < i ==> c[1..][j].key != key;
        assert c[i + 1] == Entry(key, r.value);
        assert forall j :: 0 <= j < i + 1 ==> c[j].key != key by {
          forall j | 0 < j < i + 1 ensures c[j].key != key {
            assert c[j] == c[1..][j - 1];
          }
        }
        r
      else r
  }

  /** `get_models_list`: the configured models, one per entry, in catalog order. */
  function GetModelsList(c: Catalog): (r: seq<ModelConfig>)
    ensures |r| == |c|
    ensures forall i :: 0 <= i < |c| ==> r[i] == c[i].model
  {
    seq(|c|, i requires 0 <= i < |c| => c[i].model)
  }

  /** With distinct keys, the listed models are exactly what `GetModel`
      returns for each key, in order. */
  lemma ListedModelsAreLookups(c: Catalog)
    requires UniqueKeys(c)
    ensures forall i :: 0 <= i < |c| ==> GetModel(c, c[i].key) == Some(GetModelsList(c)[i])
  {
    forall i | 0 <= i < |c|
      ensures GetModel(c, c[i].key) == Some(GetModelsList(c)[i])
    {
      assert HasKey(c, c[i].key);
      var r := GetModel(c, c[i].key);
      var j :| 0 <= j < |c| && c[j] == Entry(c[i].key, r.value)
               && forall k :: 0 <= k < j ==> c[k].key != c[i].key;
      assert j == i;
    }
  }

  /** The qualified names of the catalog in catalog order: the priority
      order the admission policy evicts from (highest priority first). */
  function ModelNames(c: Catalog): (r: seq<string>)
    ensures |r| == |c|
    ensures forall i :: 0 <= i < |c| ==> r[i] == c[i].model.name
  {
    seq(|c|, i requires 0 <= i < |c| => c[i].model.name)
  }

  // --------------------------------------------------------- validation

  datatype ConfigError = NoModels | UnnamedModel(key: string) | MaxLoadedBelowOne

  const NoModelsText := "No hay modelos configurados"
  const UnnamedPrefix := "Modelo '"
  const UnnamedSuffix := "' no tiene nombre"
  const MaxLoadedText := "max_loaded_models debe ser al menos 1"

  /** The message `validate_config` reports for each error. */
  function Message(e: ConfigError): (m: string)
    ensures e.UnnamedModel? ==> Contains(m, e.key)
    ensures e.MaxLoadedBelowOne? ==> Contains(m, "max_loaded_models")
  {
    match e
    case NoModels => NoModelsText
    case UnnamedModel(key) =>
      var m := UnnamedPrefix + key + UnnamedSuffix;
      assert OccursAt(m, key, |UnnamedPrefix|);
      m
    case MaxLoadedBelowOne =>
      assert OccursAt(MaxLoadedText, "max_loaded_models", 0);
      MaxLoadedText
  }

  /** How a message reads back as the error it reports: the inverse of
      `Message`, by its fixed texts and the frame around a model's key. */
  function ErrorOfMessage(m: string): Option<ConfigError> {
    if m == NoModelsText then Some(NoModels)
    else if m == MaxLoadedText then Some(MaxLoadedBelowOne)
    else if |m| >= |UnnamedPrefix| + |UnnamedSuffix|
            && m[..|UnnamedPrefix|] == UnnamedPrefix
            && m[|m| - |UnnamedSuffix|..] == UnnamedSuffix
    then Some(UnnamedModel(m[|UnnamedPrefix|..|m| - |UnnamedSuffix|]))
    else None
  }

  /** Every message names its error unambiguously. */
  lemma MessageRoundTrip(e: ConfigError)
    ensures ErrorOfMessage(Message(e)) == Some(e)
  {
    if e.UnnamedModel? {
      var m := Message(e);
      assert m[..|UnnamedPrefix|] == UnnamedPrefix;
      assert m[|m| - |UnnamedSuffix|..] == UnnamedSuffix;
      assert m[|UnnamedPrefix|..|m| - |UnnamedSuffix|] == e.key;
      assert m[0] == 'M' != NoModelsText[0];
      assert m[0] != MaxLoadedText[0];
    }
  }

  /** Two different errors never share a message. */
  lemma MessageInjective(e1: ConfigError, e2: ConfigError)
    ensures Message(e1) == Message(e2) ==> e1 == e2
  {
    MessageRoundTrip(e1);
    MessageRoundTrip(e2);
  }

  /** Elements that occur once. */
  predicate Distinct<T(==)>(s: seq<T>) {
    forall i, j :: 0 <= i < j < |s| ==> s[i] != s[j]
  }

  /** Some entry stored under `key` has an empty name. */
  ghost predicate HasUnnamed(c: Catalog, key: string) {
    exists i :: 0 <= i < |c| && c[i].key == key && c[i].model.name == ""
  }

  lemma HasUnnamedStep(c: Catalog, key: string)
    requires |c| > 0
    ensures HasUnnamed(c, key) <==>
            (c[0].key == key && c[0].model.name == "") || HasUnnamed(c[1..], key)
  {
    if HasUnnamed(c, key) && !(c[0].key == key && c[0].model.name == "") {
      var i :| 0 <= i < |c| && c[i].key == key && c[i].model.name == "";
      assert c[1..][i - 1] == c[i];
    }
    if HasUnnamed(c[1..], key) {
      var i :| 0 <= i < |c| - 1 && c[1..][i].key == key && c[1..][i].model.name == "";
      assert c[i + 1] == c[1..][i];
    }
  }

  /** One error per unnamed model, in catalog order. */
  function UnnamedErrors(c: Catalog): (r: seq<ConfigError>)
    ensures |r| <= |c|
    ensures forall k :: 0 <= k < |r| ==> r[k].UnnamedModel?
    ensures forall key :: UnnamedModel(key) in r <==> HasUnnamed(c, key)
    ensures r == [] <==> forall i :: 0 <= i < |c| ==> c[i].model.name != ""
  {
    if |c| == 0 then []
    else
      var rest := UnnamedErrors(c[1..]);
      assert forall key :: HasUnnamed(c, key) <==>
               (c[0].key == key && c[0].model.name == "") || HasUnnamed(c[1..], key) by {
        forall key ensures HasUnnamed(c, key) <==>
                     (c[0].key == key && c[0].model.name == "") || HasUnnamed(c[1..], key) {
          HasUnnamedStep(c, key);
        }
      }
      if c[0].model.name == "" then [UnnamedModel(c[0].key)] + rest else rest
  }

  predicate IsValid(cfg: AppConfig) {
    && |cfg.models| > 0
    && (forall i :: 0 <= i < |cfg.models| ==> cfg.models[i].model.name != "")
    && cfg.maxLoadedModels >= 1
  }

  /** `validate_config`: an empty catalog, each unnamed model and a capacity
      below one are each reported once; a valid configuration reports nothing. */
  function ValidateConfig(cfg: AppConfig): (r: seq<ConfigError>)
    ensures NoModels in r <==> |cfg.models| == 0
    ensures MaxLoadedBelowOne in r <==> cfg.maxLoadedModels < 1
    ensures forall key :: UnnamedModel(key) in r <==> HasUnnamed(cfg.models, key)
    ensures r == [] <==> IsValid(cfg)
    ensures |r| <= |cfg.models| + 2
    ensures multiset(r)[NoModels] <= 1 && multiset(r)[MaxLoadedBelowOne] <= 1
    ensures NoModels in r ==> r[0] == NoModels
    ensures MaxLoadedBelowOne in r ==> r[|r| - 1] == MaxLoadedBelowOne
    ensures var lo := if NoModels in r then 1 else 0;
            var hi := if MaxLoadedBelowOne in r then |r| - 1 else |r|;
            lo <= hi && r[lo..hi] == UnnamedErrors(cfg.models)
  {
    var unnamed := UnnamedErrors(cfg.models);
    var r := (if |cfg.models| == 0 then [NoModels] else [])
             + unnamed
             + (if cfg.maxLoadedModels < 1 then [MaxLoadedBelowOne] else []);
    ValidateFacts(cfg, unnamed, r);
    r
  }

  lemma ValidateFacts(cfg: AppConfig, unnamed: seq<ConfigError>, r: seq<ConfigError>)
    requires unnamed == UnnamedErrors(cfg.models)
    requires r == (if |cfg.models| == 0 then [NoModels] else [])
                  + unnamed
                  + (if cfg.maxLoadedModels < 1 then [MaxLoadedBelowOne] else [])
    ensures NoModels in r <==> |cfg.models| == 0
    ensures MaxLoadedBelowOne in r <==> cfg.maxLoadedModels < 1
    ensures forall key :: UnnamedModel(key) in r <==> HasUnnamed(cfg.models, key)
    ensures r == [] <==> IsValid(cfg)
    ensures multiset(r)[NoModels] <= 1 && multiset(r)[MaxLoadedBelowOne] <= 1
    ensures NoModels in r ==> r[0] == NoModels
    ensures MaxLoadedBelowOne in r ==> r[|r| - 1] == MaxLoadedBelowOne
    ensures var lo := if NoModels in r then 1 else 0;
            var hi := if MaxLoadedBelowOne in r then |r| - 1 else |r|;
            lo <= hi && r[lo..hi] == unnamed
  {
    assert NoModels !in unnamed && MaxLoadedBelowOne !in unnamed by {
      assert forall k :: 0 <= k < |unnamed| ==> unnamed[k].UnnamedModel?;
    }
    var pre: seq<ConfigError> := if |cfg.models| == 0 then [NoModels] else [];
    var post: seq<ConfigError> := if cfg.maxLoadedModels < 1 then [MaxLoadedBelowOne] else [];
    ErrorLayout(pre, unnamed, post);
  }

  /** The global errors frame the per-model ones: at most one of each, the
      empty-catalog error first and the capacity error last. */
  lemma ErrorLayout(pre: seq<ConfigError>, unnamed: seq<ConfigError>, post: seq<ConfigError>)
    requires pre == [] || pre == [NoModels]
    requires post == [] || post == [MaxLoadedBelowOne]
    requires NoModels !in unnamed && MaxLoadedBelowOne !in unnamed
    ensures var r := pre + unnamed + post;
            && multiset(r)[NoModels] <= 1 && multiset(r)[MaxLoadedBelowOne] <= 1
            && (NoModels in r ==> r[0] == NoModels)
            && (MaxLoadedBelowOne in r ==> r[|r| - 1] == MaxLoadedBelowOne)
            && var lo := if NoModels in r then 1 else 0;
               var hi := if MaxLoadedBelowOne in r then |r| - 1 else |r|;
               lo <= hi && r[lo..hi] == unnamed
  {
    var r := pre + unnamed + post;
    assert multiset(r) == multiset(pre) + multiset(unnamed) + multiset(post);
    assert multiset(unnamed)[NoModels] == 0 && multiset(unnamed)[MaxLoadedBelowOne] == 0;
    assert NoModels in r <==> NoModels in pre;
    assert MaxLoadedBelowOne in r <==> MaxLoadedBelowOne in post;
    assert r[|pre|..|r| - |post|] == unnamed;
  }

  /** Validation reports the unnamed models of a catalog part by part: the
      errors of an earlier part of the catalog come first, one per entry. */
  lemma {:induction false} UnnamedErrorsAppend(a: Catalog, b: Catalog)
    ensures UnnamedErrors(a + b) == UnnamedErrors(a) + UnnamedErrors(b)
  {
    if |a| > 0 {
      assert (a + b)[1..] == a[1..] + b;
      assert (a + b)[0] == a[0];
      UnnamedErrorsAppend(a[1..], b);
      UnnamedErrorsUnfold(a);
      UnnamedErrorsUnfold(a + b);
      var x := UnnamedErrors([a[0]]);
      assert x + (UnnamedErrors(a[1..]) + UnnamedErrors(b))
          == (x + UnnamedErrors(a[1..])) + UnnamedErrors(b);
    } else {
      assert a + b == b;
    }
  }

  /** The first entry's error, if any, comes before the rest's. */
  lemma UnnamedErrorsUnfold(c: Catalog)
    requires |c| > 0
    ensures UnnamedErrors(c) == UnnamedErrors([c[0]]) + UnnamedErrors(c[1..])
  {
    assert [c[0]][1..] == [];
    if c[0].model.name != "" {
      assert [] + UnnamedErrors(c[1..]) == UnnamedErrors(c[1..]);
    }
  }

  /** A single entry yields one error exactly when its name is empty. */
  lemma UnnamedErrorsOfEntry(e: Entry)
    ensures UnnamedErrors([e]) == if e.model.name == "" then [UnnamedModel(e.key)] else []
  {
    assert [e][1..] == [];
  }

  /** With distinct keys, which a parsed catalog has, each unnamed model is
      reported exactly once and a named one never. */
  lemma {:induction false} UnnamedErrorsOnce(c: Catalog, key: string)
    requires UniqueKeys(c)
    ensures multiset(UnnamedErrors(c))[UnnamedModel(key)] == if HasUnnamed(c, key) then 1 else 0
  {
    if |c| > 0 {
      var rest := UnnamedErrors(c[1..]);
      UniqueKeysTail(c);
      UnnamedErrorsOnce(c[1..], key);
      HasUnnamedStep(c, key);
      if c[0].model.name == "" {
        assert UnnamedErrors(c) == [UnnamedModel(c[0].key)] + rest;
        assert multiset(UnnamedErrors(c)) == multiset{UnnamedModel(c[0].key)} + multiset(rest);
      } else {
        assert UnnamedErrors(c) == rest;
      }
    }
  }

  /** Dropping the first entry keeps the keys distinct, and no later
      entry — in particular no later unnamed one — shares its key. */
  lemma UniqueKeysTail(c: Catalog)
    requires |c| > 0 && UniqueKeys(c)
    ensures UniqueKeys(c[1..])
    ensures forall i :: 0 <= i < |c| - 1 ==> c[1..][i].key != c[0].key
    ensures !HasUnnamed(c[1..], c[0].key)
  {
    forall i, j | 0 <= i < j < |c| - 1 ensures c[1..][i].key != c[1..][j].key {
      assert c[1..][i] == c[i + 1] && c[1..][j] == c[j + 1];
    }
    forall i | 0 <= i < |c| - 1 ensures c[1..][i].key != c[0].key {
      assert c[1..][i] == c[i + 1];
    }
  }

  /** Joining two repetition-free sequences with no element in common
      gives a repetition-free sequence. */
  lemma DistinctAppend<T>(a: seq<T>, b: seq<T>)
    requires Distinct(a) && Distinct(b)
    requires forall x :: x in a ==> x !in b
    ensures Distinct(a + b)
  {
    forall i, j | 0 <= i < j < |a + b| ensures (a + b)[i] != (a + b)[j] {
      if j < |a| {
        assert (a + b)[i] == a[i] && (a + b)[j] == a[j];
      } else if i >= |a| {
        assert (a + b)[i] == b[i - |a|] && (a + b)[j] == b[j - |a|];
      } else {
        assert (a + b)[i] == a[i] && (a + b)[j] == b[j - |a|];
        assert a[i] in a && b[j - |a|] in b;
      }
    }
  }

  /** With distinct keys, no unnamed-model error is reported twice. */
  lemma {:induction false} UnnamedErrorsDistinct(c: Catalog)
    requires UniqueKeys(c)
    ensures Distinct(UnnamedErrors(c))
  {
    if |c| > 0 {
      UniqueKeysTail(c);
      UnnamedErrorsDistinct(c[1..]);
      UnnamedErrorsUnfold(c);
      UnnamedErrorsOfEntry(c[0]);
      DistinctAppend(UnnamedErrors([c[0]]), UnnamedErrors(c[1..]));
    }
  }

  /** With distinct keys, `validate_config` reports no error twice. */
  lemma ValidationErrorsDistinct(cfg: AppConfig)
    requires UniqueKeys(cfg.models)
    ensures Distinct(ValidateConfig(cfg))
  {
    var unnamed := UnnamedErrors(cfg.models);
    UnnamedErrorsDistinct(cfg.models);
    var pre: seq<ConfigError> := if |cfg.models| == 0 then [NoModels] else [];
    var post: seq<ConfigError> := if cfg.maxLoadedModels < 1 then [MaxLoadedBelowOne] else [];
    assert forall k :: 0 <= k < |unnamed| ==> unnamed[k].UnnamedModel?;
    DistinctAppend(pre, unnamed);
    DistinctAppend(pre + unnamed, post);
    assert ValidateConfig(cfg) == pre + unnamed + post;
  }

  /** The messages of a list of errors, in order: each string reads back
      as the error at its position. */
  function MessagesOf(errs: seq<ConfigError>): (r: seq<string>)
    ensures |r| == |errs|
    ensures forall i :: 0 <= i < |r| ==> ErrorOfMessage(r[i]) == Some(errs[i])
  {
    var r := seq(|errs|, i requires 0 <= i < |errs| => Message(errs[i]));
    assert forall i :: 0 <= i < |r| ==> ErrorOfMessage(r[i]) == Some(errs[i]) by {
      forall i | 0 <= i < |r| ensures ErrorOfMessage(r[i]) == Some(errs[i]) {
        MessageRoundTrip(errs[i]);
      }
    }
    r
  }

  /** The list of strings `validate_config` returns. */
  function ValidationMessages(cfg: AppConfig): seq<string> {
    MessagesOf(ValidateConfig(cfg))
  }

  /** With distinct keys, which a parsed catalog has, no message is
      repeated: the error-level facts carry over to the returned strings. */
  lemma ValidationMessagesDistinct(cfg: AppConfig)
    requires UniqueKeys(cfg.models)
    ensures Distinct(ValidationMessages(cfg))
  {
    ValidationErrorsDistinct(cfg);
    var r := ValidationMessages(cfg);
    var errs := ValidateConfig(cfg);
    forall i, j | 0 <= i < j < |r| ensures r[i] != r[j] {
      assert ErrorOfMessage(r[i]) == Some(errs[i]) && ErrorOfMessage(r[j]) == Some(errs[j]);
    }
  }

  // ---------------------------------------------------- platform profile

  /** The overrides a platform recommends: `{}` has both fields absent. */
  datatype Profile = Profile(maxLoadedModels: Option<int>, memoryUnified: Option<bool>)

  const EmptyProfile := Profile(None, None)
  const AppleProfile := Profile(Some(1), Some(true))
  const ApplePlatform: string := "apple_m3"

  datatype Detected = Detected(platform: string, profile: Profile)

  predicate IsAppleAlias(name: string) {
    name == "apple_m3" || name == "apple-m3" || name == "apple"
  }

  /** `detect_platform`, with the `LLM_FORCE_PLATFORM` variable and the
      host's system and machine names as inputs. An unset or empty variable
      does not force anything. */
  function DetectPlatform(forced: Option<string>, system: string, machine: string): (r: Detected)
    ensures forced.Some? && forced.value != "" ==>
              if IsAppleAlias(Lower(forced.value)) then r == Detected(ApplePlatform, AppleProfile)
              else r == Detected(Lower(forced.value), EmptyProfile)
    ensures (forced.None? || forced.value == "") ==>
              if system == "Darwin" && StartsWith(machine, "arm") then r == Detected(ApplePlatform, AppleProfile)
              else r == Detected(Lower(system), EmptyProfile)
    ensures r.profile == AppleProfile || r.profile == EmptyProfile
    ensures r.profile.maxLoadedModels.Some? <==> r.platform == ApplePlatform && r.profile == AppleProfile
  {
    if forced.Some? && forced.value != "" then
      var name := Lower(forced.value);
      if IsAppleAlias(name) then Detected(ApplePlatform, AppleProfile)
      else Detected(name, EmptyProfile)
    else if system == "Darwin" && |machine| > 0 && StartsWith(machine, "arm") then
      Detected(ApplePlatform, AppleProfile)
    else Detected(Lower(system), EmptyProfile)
  }

  /** Forcing the platform that detection reported reproduces the detection,
      unless the host's own system name is one of the Apple aliases. */
  lemma ForcingDetectedPlatformIsStable(system: string, machine: string, other: string)
    requires !IsAppleAlias(Lower(system))
    requires DetectPlatform(None, system, machine).platform != ""
    ensures var d := DetectPlatform(None, system, machine);
            DetectPlatform(Some(d.platform), other, machine) == d
  {
    LowerIdempotent(system);
  }

  /** `_apply_platform_profile`: a profile capacity replaces the parsed one
      only when the raw `global:` section does not set `max_loaded_models`;
      nothing else in the configuration changes. */
  function ApplyPlatformProfile(cfg: AppConfig, raw: RawConfig, d: Detected): (r: AppConfig)
    ensures r.models == cfg.models && r.ollamaHost == cfg.ollamaHost
    ensures r.autoStopInactive == cfg.autoStopInactive
    ensures r.inactiveTimeoutMinutes == cfg.inactiveTimeoutMinutes
    ensures raw.global.Some? && raw.global.value.maxLoadedModels.Some? ==> r == cfg
    ensures r.maxLoadedModels == cfg.maxLoadedModels
            || (d.profile.maxLoadedModels == Some(r.maxLoadedModels) && r.maxLoadedModels != 0)
    ensures !(raw.global.Some? && raw.global.value.maxLoadedModels.Some?)
            && d.profile.maxLoadedModels.Some? && d.profile.maxLoadedModels.value != 0 ==>
              r == cfg.(maxLoadedModels := d.profile.maxLoadedModels.value)
    ensures d.profile.maxLoadedModels.None? || d.profile.maxLoadedModels == Some(0) ==> r == cfg
  {
    var explicit := raw.global.Some? && raw.global.value.maxLoadedModels.Some?;
    match d.profile.maxLoadedModels
    case Some(v) =>
      if v != 0 && !explicit then cfg.(maxLoadedModels := v) else cfg
    case None => cfg
  }

  /** Loading a document: parse it, then apply the detected platform's profile. */
  function LoadConfig(raw: RawConfig, d: Detected): Result<AppConfig, ParseError>
  {
    match ParseConfig(raw)
    case Err(e) => Err(e)
    case Ok(cfg) => Ok(ApplyPlatformProfile(cfg, raw, d))
  }

  /** The capacity after loading: an explicit user value always wins; without
      one, Apple Silicon gets 1 and every other platform the default 2. */
  lemma LoadedCapacity(raw: RawConfig, forced: Option<string>, system: string, machine: string)
    requires ParseConfig(raw).Ok?
    ensures var d := DetectPlatform(forced, system, machine);
            var r := LoadConfig(raw, d);
            && r.Ok?
            && (raw.global.Some? && raw.global.value.maxLoadedModels.Some? ==>
                  r.value.maxLoadedModels == raw.global.value.maxLoadedModels.value)
            && (!(raw.global.Some? && raw.global.value.maxLoadedModels.Some?) ==>
                  r.value.maxLoadedModels == (if d.profile == AppleProfile then 1 else DefaultMaxLoaded))
  {
  }

  // ------------------------------------------------------------- saving

  /** The dict `_config_to_dict` builds: the four global values at the top
      level next to `models`, each model with all four fields present. */
  datatype SavedDict = SavedDict(
    ollamaHost: string,
    maxLoadedModels: int,
    autoStopInactive: bool,
    inactiveTimeoutMinutes: int,
    models: seq<RawEntry>)

  function SavedModels(c: Catalog): (r: seq<RawEntry>)
    ensures |r| == |c|
    ensures forall i :: 0 <= i < |c| ==>
              && r[i].key == c[i].key
              && r[i].model.name == Some(c[i].model.name)
              && r[i].model.description == Some(c[i].model.description)
              && r[i].model.maxContext == c[i].model.maxContext
              && r[i].model.temperature == c[i].model.temperature
  {
    seq(|c|, i requires 0 <= i < |c| =>
      var m := c[i].model;
      RawEntry(c[i].key, RawModel(Some(m.name), Some(m.description), m.maxContext, m.temperature)))
  }

  /** `_config_to_dict` as written: every model key and the four global
      values are copied unchanged, but the globals sit at the top level. */
  function ConfigToDict(cfg: AppConfig): (r: SavedDict)
    ensures r.ollamaHost == cfg.ollamaHost && r.maxLoadedModels == cfg.maxLoadedModels
    ensures r.autoStopInactive == cfg.autoStopInactive
    ensures r.inactiveTimeoutMinutes == cfg.inactiveTimeoutMinutes
    ensures ParseModels(r.models) == Ok(cfg.models)
  {
    SavedModelsParse(cfg.models);
    SavedDict(cfg.ollamaHost, cfg.maxLoadedModels, cfg.autoStopInactive,
              cfg.inactiveTimeoutMinutes, SavedModels(cfg.models))
  }

  /** The document the loader sees when it reads a saved dict back: it only
      looks under `global:` and `models:`, and the saved dict has no `global:`. */
  function AsLoaded(d: SavedDict): RawConfig {
    RawConfig(None, d.models)
  }

  /** Saving with `_config_to_dict` and loading again loses every global
      value: a capacity of 1 comes back as the default 2. */
  lemma SavedGlobalsAreLost(cfg: AppConfig)
    requires cfg.maxLoadedModels == 1
    ensures ParseConfig(AsLoaded(ConfigToDict(cfg))).Ok?
    ensures ParseConfig(AsLoaded(ConfigToDict(cfg))).value.maxLoadedModels == DefaultMaxLoaded
    ensures ParseConfig(AsLoaded(ConfigToDict(cfg))) != Ok(cfg)
  {
  }

  /** The corrected save format: the globals nested under `global:`. */
  function ConfigToRaw(cfg: AppConfig): (raw: RawConfig)
    ensures ParseConfig(raw) == Ok(cfg)
  {
    SavedModelsParse(cfg.models);
    RawConfig(Some(RawGlobal(Some(cfg.ollamaHost), Some(cfg.maxLoadedModels),
                             Some(cfg.autoStopInactive), Some(cfg.inactiveTimeoutMinutes))),
              SavedModels(cfg.models))
  }

  /** Parsing the saved models gives the catalog back. */
  lemma SavedModelsParse(c: Catalog)
    ensures ParseModels(SavedModels(c)) == Ok(c)
  {
    var p := ParseModels(SavedModels(c));
    assert p.Ok?;
    assert |p.value| == |c|;
    forall i | 0 <= i < |c| ensures p.value[i] == c[i] {
      var m := c[i].model;
      assert p.value[i].model == ModelConfig(m.name, m.description, m.maxContext, m.temperature);
    }
    assert p.value == c;
  }
}
