# Local model console: configuration and runtime policy in Dafny

This project models the decision logic of a small console that manages
local language models served by the Ollama runtime. It covers two
components.

- `ConfigManager` (lib/config_manager.py) holds the model catalog and the
  global settings. It parses the YAML document into that catalog, falls
  back to built-in documents, detects the platform and applies its capacity
  profile, looks models up, validates the configuration and converts it
  back to a dict for saving.
- `OllamaManager` (lib/ollama_manager.py) talks to the runtime through the
  `ollama` command line and the daemon's HTTP API. It:
  - decides whether a command succeeded;
  - checks that the CLI is installed and the daemon answers `/api/tags` with 200;
  - parses the `ollama list` table;
  - reads the resident models;
  - estimates VRAM;
  - probes a model for readiness;
  - keeps the number of resident models under the configured ceiling;
  - activates a model;
  - detects and applies updates from the public registry;
  - builds the status summary.

The process runs, the HTTP exchanges, the environment and the host
description are all inputs:
- a `ProcessOutcome` says how `subprocess.run` ended;
- an `HttpReply` is a status with a decoded body, or `Unreachable`;
- `DetectPlatform` takes the forcing variable and the system and machine
  names as parameters.

Operations that change the runtime return a trace of the `Action`s they
issue (`Stop`, `Pull` with or without the progress display, `Probe`)
alongside their boolean answer.

Modules, one per component:

- `Wrappers`: `Option` and `Result`.
- `Text`: the Python string operations the source relies on:
  - `strip`, `split(sep)` and `split()`, with Unicode whitespace;
  - ASCII `lower`;
  - substring `in`;
  - decimal rendering.
- `Config`: lib/config_manager.py.
- `Runtime`: the adapter methods of lib/ollama_manager.py.
- `Updates`: `check_model_updates`.
- `Engine`: admission control, smart activation, updating a model and the
  status summary.

The catalog is a sequence of `(key, model)` entries in the YAML document's
order, which is the order a Python dict keeps.

## Model

| member | source | states |
|---|---|---|
| Config.ParseModels | lib/config_manager.py:161-173 | One model per document key, in order. Each model carries its name, the description defaulting to empty, and the context and temperature as given. The parse fails exactly when some model lacks a name, and the error names the first such key. |
| Config.ParseConfig | lib/config_manager.py:161-180 | The catalog is the parsed models. Each global value is the document's value when present. Otherwise it takes its default: host http://localhost:11434, capacity 2, auto-stop true, timeout 30. |
| Config.ParsedKeysUnique | lib/config_manager.py:165-171 | A document with distinct keys gives a catalog with distinct keys. |
| Config.MinimalConfig | lib/config_manager.py:107-122 | The fallback document parses to one model with capacity 1 and auto-stop off, and it validates clean. |
| Config.DefaultModelsConfig | lib/config_manager.py:124-147 | The default document parses to exactly three models under the distinct keys qwen, deepseek and mistral. Its capacity is 2 and it validates clean. |
| Config.GetModel | lib/config_manager.py:264-266 | The lookup is absent exactly when no entry has the key. Otherwise it is the model of the first entry with that key. |
| Config.GetModelsList | lib/config_manager.py:268-270 | One model per catalog entry, in catalog order. |
| Config.ListedModelsAreLookups | lib/config_manager.py:264-270 | With distinct keys, element i of the model list is what the lookup returns for key i. |
| Config.Message | lib/config_manager.py:297-304 | The message for an unnamed model contains its key. The capacity message mentions max_loaded_models. |
| Config.MessageRoundTrip | lib/config_manager.py:297-304 | Each message reads back, through the inverse `ErrorOfMessage`, as the error it reports: the empty-catalog text, the capacity text, or the unnamed-model frame around exactly its key. |
| Config.MessageInjective | lib/config_manager.py:297-304 | Two different errors never share a message. |
| Config.MessagesOf | lib/config_manager.py:297-304 | The returned strings are one message per error, in the order of the errors, and each reads back as its error. |
| Config.ValidationErrorsDistinct | lib/config_manager.py:292-306 | With distinct catalog keys, no error is reported twice. |
| Config.ValidationMessagesDistinct | lib/config_manager.py:292-306 | With distinct catalog keys, no message in the returned list is repeated. |
| Config.UnnamedErrorsDistinct | lib/config_manager.py:299-301 | With distinct catalog keys, no unnamed-model error occurs twice. |
| Config.UnnamedErrors | lib/config_manager.py:299-301 | An error is reported for a key exactly when a model under that key has an empty name. There are no errors exactly when every model is named. |
| Config.UnnamedErrorsAppend | lib/config_manager.py:299-301 | The errors follow catalog order: those of an earlier part of the catalog come before those of a later part. |
| Config.UnnamedErrorsOfEntry | lib/config_manager.py:299-301 | One entry gives one error, naming its key, exactly when its name is empty, and none otherwise. |
| Config.UnnamedErrorsOnce | lib/config_manager.py:299-301 | With distinct keys, each unnamed model's key is reported exactly once, and a named model's key never. |
| Config.ValidateConfig | lib/config_manager.py:292-306 | "No models" is reported iff the catalog is empty, at most once, and first. The capacity error is reported iff the capacity is below 1, at most once, and last. Between them come exactly the unnamed-model errors, in catalog order. No errors iff the configuration is valid. |
| Config.DetectPlatform | lib/config_manager.py:183-213 | A non-empty forced value is lowercased: the Apple aliases give apple_m3 with capacity 1 and unified memory, and any other value gives itself with an empty profile. Without forcing, Darwin on an arm machine gives apple_m3, and anything else gives the lowercased system with an empty profile. |
| Config.ForcingDetectedPlatformIsStable | lib/config_manager.py:193-213 | Forcing the platform detection reported gives the same detection, unless the system name is itself an Apple alias. |
| Config.ApplyPlatformProfile | lib/config_manager.py:215-235 | An explicit capacity in the raw global section leaves the configuration unchanged. So does a profile without a non-zero capacity. Otherwise the profile's capacity replaces the parsed one. Nothing else ever changes. |
| Config.LoadedCapacity | lib/config_manager.py:215-235 | After loading, an explicit capacity is kept. Without one, the capacity is 1 under the Apple profile and 2 otherwise. |
| Config.SavedModels | lib/config_manager.py:282-288 | Every key is saved with its name, description, context and temperature. |
| Config.SavedModelsParse | lib/config_manager.py:282-288 | Parsing the saved models gives the catalog back. |
| Config.ConfigToDict | lib/config_manager.py:272-290 | The four global values are copied unchanged at the top level, and the saved models parse back to the catalog. |
| Config.SavedGlobalsAreLost | lib/config_manager.py:272-290 | Loading the saved dict again does not give the configuration back: a capacity of 1 reloads as the default 2. |
| Config.ConfigToRaw | lib/config_manager.py:161-180 | With the globals nested under `global:`, parsing the saved document gives exactly the configuration back. |
| Runtime.RunCommand | lib/ollama_manager.py:43-58 | Success means exit status 0. The output is stripped stdout on success and stripped stderr on failure, a fixed message on timeout, and "Error: " plus the message for any other exception. |
| Runtime.CheckOllamaInstalled | lib/ollama_manager.py:60-63 | Installed iff the version command succeeds and its lowercased output contains "ollama version". |
| Runtime.VersionBannerRecognised | lib/ollama_manager.py:60-63 | Output that begins with "ollama version", in any ASCII letter case, and does not end in whitespace is recognised. |
| Runtime.ParseRows | lib/ollama_manager.py:100-116 | There are no more entries than lines. Lines with fewer than four fields yield nothing. |
| Runtime.ParsedRowsHaveSources | lib/ollama_manager.py:100-116 | Every entry is built from some line with at least four fields: name from field 0, size from field 2, VRAM size from field 3, digest from the last field. So these are whitespace-free words, and the entry is never marked loaded. |
| Runtime.ListInstalledModels | lib/ollama_manager.py:90-118 | A failed `ollama list` gives no models. Otherwise the stripped output is split into lines, the first (header) line is dropped, and the rest are parsed. |
| Runtime.ListingRoundTrip | lib/ollama_manager.py:90-118 | A table printed with one word per column, under any single-line header without surrounding whitespace, parses back to exactly its rows in order. Each row gives name, size, VRAM size and digest. |
| Runtime.LineOfWords | lib/ollama_manager.py:103-115 | A line of four or more words yields one entry: the first word as name, the third as size, the fourth as VRAM size and the last as digest. |
| Runtime.SampleSizeIsNumberOnly | lib/ollama_manager.py:103-108 | In a line whose size column reads "4.7 GB", the size is "4.7" and the VRAM size is "GB". |
| Runtime.RunningModels | lib/ollama_manager.py:120-129 | Nothing unless the daemon answered 200 with a decodable body. Nothing either when the body has no `models` or some entry has no `name`. Otherwise the names of its models, in order. |
| Runtime.TestModel | lib/ollama_manager.py:189-214 | Ready iff the answer is 200 with a response text that holds something besides whitespace. |
| Runtime.PullModel | lib/ollama_manager.py:145-163 | Issues exactly one pull, with or without progress. It succeeds iff the command exits with 0; an interrupt is a failure. |
| Runtime.StopModel | lib/ollama_manager.py:177-187 | Issues exactly one stop and succeeds iff the command exits with 0. |
| Runtime.GetVramUsage | lib/ollama_manager.py:131-143 | The total is "8GB". The used value is "~", then digits whose value is 5 times the number of resident models, with no leading zero, then "GB". The resident list is passed through. |
| Updates.BaseName | lib/ollama_manager.py:289-297 | The base has no colon. For a tagged name it is the text before the first colon, followed there by the colon. An untagged name is its own base. |
| Updates.BaseOfTagged | lib/ollama_manager.py:289-297 | The base of `b:t` is `b`, for any colon-free `b` and any tag. |
| Updates.RegistryMap | lib/ollama_manager.py:286-291 | Keys of the registry map never contain a colon. |
| Updates.RegistryMapAt | lib/ollama_manager.py:286-291 | A base is in the map iff some entry has a tagged name with that base. It maps to the name of the last such entry, so untagged and nameless entries never enter. |
| Updates.RegistryMapValues | lib/ollama_manager.py:286-291 | The last entry published under a base is what the map holds for it. That value is tagged and has that base. |
| Updates.Reconcile | lib/ollama_manager.py:294-308 | An installed name is reported iff it is tagged, its base is in the map and the map's name differs. The record holds the name, the map's name and the base. |
| Updates.CheckModelUpdates | lib/ollama_manager.py:274-313 | No updates without a 200 answer carrying a list. Every key is an installed name and equals its record's current name. The latest name differs from the current one, is tagged, and has the same base. |
| Updates.UpdatesComplete | lib/ollama_manager.py:286-308 | A name is reported iff it is installed, tagged, and the last registry entry with its base has another name. The reported latest is that entry's name. |
| Updates.UpdatesDependOnNameSet | lib/ollama_manager.py:294-308 | The order and repetition of the installed listing do not change the report. |
| Updates.LatestIsNotReported | lib/ollama_manager.py:301-308 | The latest name of a report is never itself reported against the same registry answer. |
| Engine.FirstIn | lib/ollama_manager.py:246-249 | Absent iff no resident name is in the tail. Otherwise the first resident name, in resident order, that is. |
| Engine.EnsureMaxLoadedRespected | lib/ollama_manager.py:233-249 | No stop when at most the ceiling is resident. At most one stop otherwise. A stop is issued iff over the ceiling with some resident model in `priority[maxLoaded:]`, and it is the first such model in resident order. |
| Engine.NeverStopsTopPriority | lib/ollama_manager.py:241-248 | With distinct priority names, none of the first `maxLoaded` priorities is ever stopped. |
| Engine.StopsOnlyListedModels | lib/ollama_manager.py:243-248 | Only a resident model named in the priority list can be stopped. |
| Engine.UnlistedResidentsAreKept | lib/ollama_manager.py:243-248 | Resident models absent from the priority list are never stopped, even far over the ceiling. |
| Engine.EvictsLowestResident | lib/ollama_manager.py:233-249 | With residents a, b, c, priorities a, b, c, d and a ceiling of 2, exactly c is stopped. |
| Engine.EnsureMaxLoadedAsWritten | lib/ollama_manager.py:237-243 | As written, the operation fails exactly when more than the ceiling is resident, and otherwise does nothing. |
| Engine.AsWrittenFailsOverCapacity | lib/ollama_manager.py:237-243 | Three residents under a ceiling of 2 fail as written, where the corrected operation stops a model. |
| Engine.SmartActivate | lib/ollama_manager.py:251-272 | An unknown key fails with nothing issued. A model that is not installed is pulled first, and a failed pull ends with that pull only. An installed model is never pulled. Otherwise the actions are the pull if any, then exactly admission control's actions, then one probe, and the probe decides the result. Any stop names a resident model from the catalog. |
| Engine.ActivationOfInstalledWithinCapacity | lib/ollama_manager.py:251-272 | Activating an installed model while at most the ceiling is resident issues only the probe, and the probe's answer is the result. |
| Engine.FailedPullEndsActivation | lib/ollama_manager.py:262-265 | When the pull of a missing model fails, the activation fails, and nothing but the pull is issued. |
| Engine.ActivationStopsAtMostOne | lib/ollama_manager.py:267-268 | An activation issues at most one stop, and none when at most the ceiling is resident. |
| Engine.UpdateIfAvailable | lib/ollama_manager.py:315-334 | Without a pending update it returns true and issues nothing. Otherwise it stops the model only if resident, then pulls the latest name with progress; the pull decides the result. The latest name differs from the model's and shares its base. |
| Engine.UpdateSettles | lib/ollama_manager.py:315-334 | Updating the name an update pointed to is a no-op returning true, whatever is installed by then. |
| Engine.UpdatePullsRegistryLatest | lib/ollama_manager.py:319-328 | The pulled name is the last registry entry with the model's base. |
| Engine.StatusSummary | lib/ollama_manager.py:336-353 | The counts are the lengths of the installed listing, the resident list and the update map. The installed names are listed in order. The running flag is the /api/tags check, and the VRAM fields come from the estimate. |
| Engine.UpdatesWithinInstalled | lib/ollama_manager.py:338-347 | When the update check sees the same listing, no more models have updates than are installed. |
| Text.Strip | lib/ollama_manager.py:54 | Never longer than the input. Empty iff the input is all whitespace. Otherwise it starts and ends with a non-whitespace character. |
| Text.StripSlice | lib/ollama_manager.py:54 | The result is one contiguous piece of the input, with only whitespace before it and after it. |
| Text.StripOfTrimmed | lib/ollama_manager.py:54 | Stripping a string that neither starts nor ends with whitespace gives it back unchanged. |
| Text.Split | lib/ollama_manager.py:98 | Never empty, no piece holds the separator, and joining the pieces rebuilds the input. |
| Text.SplitJoin | lib/ollama_manager.py:98 | Splitting a join of separator-free pieces gives the pieces back. |
| Text.Fields | lib/ollama_manager.py:103 | Every field is a non-empty word without whitespace. An all-whitespace line has no fields. |
| Text.FieldsJoin | lib/ollama_manager.py:103 | Splitting words joined by spaces gives the words back. |
| Text.Contains | lib/ollama_manager.py:63 | True iff the substring occurs at some position. |
| Text.LowerIdempotent | lib/config_manager.py:194 | Lowercasing twice is lowercasing once. |
| Text.DecimalRoundTrip | lib/ollama_manager.py:137 | The decimal rendering of a count reads back as that count. |

## Left out

- `start_ollama_service`, `get_model_info`, `remove_model` and `get_available_models` are outside the modelled core.
- YAML and file I/O are left out: loading and saving the files, `_get_default_config_dir`, `_load_app_config` and `create_example_config`. A document is modelled after YAML decoding, as `RawConfig`.
- Printed messages are not modelled, nor are the emoji prefixes.
- `Text.Lower` folds ASCII letters only, where Python's `lower` folds all of Unicode. Platform names are ASCII in practice.
- An explicit YAML `null` is treated as an absent value. In the source, a null global value would be passed through by `.get`, and a null capacity would block the platform profile. A model whose `name:` is null loads in the source, because `model_data['name']` gives `None` (lib/config_manager.py:168). `validate_config` then reports that the model has no name, since `not None` holds (lib/config_manager.py:299-301). The model reads the null as a missing name, so `ParseConfig` rejects the whole document with `MissingName(key)`, and for a null name the source's "no name" error is not reached.
- A `global:` or `models:` section that is null or not a mapping, and a model entry that is not a mapping, are not modelled. In the source `_parse_config` calls `.get` or `.items` on it and raises. It runs outside the loader's `try`, so constructing `ConfigManager` fails. `RawConfig` holds only mappings, and the model treats a null section as an absent one, applying the defaults.
- The temperature is carried as an opaque value: floating point is not modelled.
- Decoded JSON bodies are given as datatypes. A body that cannot be decoded, or that has the wrong shape, is `None`. For `get_running_models`, a missing `models` key is `PsBody(None)` and an entry without `name` is `PsModel(None)`; the source then gives an empty list, through `.get('models', [])` and a caught `KeyError`, and so does the model. For the registry, a non-string `name` makes the body `None`, and the model reports no updates. The source agrees for a number or a null name, and for a list or mapping name that has `':'` as a member: the `in` test or `split` raises, the exception is swallowed and the result is empty.
- A registry entry whose `name` is a list or mapping without a `':'` member is not modelled. In the source the `in` test of lib/ollama_manager.py:289 is then a membership test that returns false, so that one entry is skipped and the others are still used; the model discards the whole answer instead.
- Updates.CheckModelUpdates: the result is a Dafny `map`, which has no order. The source's dict is filled in installed-listing order (lib/ollama_manager.py:294-308), and lib/main.py iterates it in that order when it lists the updates (lib/main.py:380, 408, 445, 506). The model states which names are reported and with what record, but not the order in which they are listed.
- Runtime.PullModel: with the progress display, exceptions other than an interrupt propagate in the source. The model treats every non-zero or failed outcome as a failed pull.
- `current_tag`, computed in `check_model_updates`, is never used, so it is not modelled.
- The HTTP host, the URLs, the timeouts and the request bodies are not modelled. Only the answers are.
- `get_models_by_priority` does not exist in lib/config_manager.py. The corrected admission control takes the priority list as a parameter, and `Engine.Priority` supplies the catalog's model names in configuration order.
- Engine.StatusSummary: the source consults the listing and the resident models several times. Each consultation is a separate input, so the summary's fields agree only when those snapshots agree.

Two behaviours of the code that may be surprising:

- `smart_activate_model` pulls a missing model with the progress display, because `show_progress` defaults to true.
- Admission control frees at most one slot, not exactly one. With one model more than the ceiling resident, nothing is stopped when no resident model is in the low-priority tail (`Engine.UnlistedResidentsAreKept`).

Where the repository's tests and the code disagree, the model follows
the code. A size printed as "4.7 GB" is read as "4.7". An update pulls
without probing the model afterwards.

## Findings

| source | as written | input that shows it | evidently intended | confidence | as-written member | corrected member |
|---|---|---|---|---|---|---|
| lib/ollama_manager.py:242 | Calls `config_manager.get_models_by_priority()`, which lib/config_manager.py does not define. Over capacity this raises `AttributeError`, so nothing is stopped and `smart_activate_model` aborts. | resident `a, b, c`, ceiling 2 | Stop the first resident model in the low-priority tail of the catalog's priority order. | high (not executed) | Engine.AsWrittenFailsOverCapacity | Engine.EnsureMaxLoadedRespected |
| lib/config_manager.py:272-290 | Writes the four global values at the top level, while `_parse_config` reads them only under `global:`. | capacity 1, saved and loaded again | Nest the globals under `global:` so that loading the saved dict gives the configuration back. | medium (not executed; no caller of `_config_to_dict` is in the repository's files) | Config.SavedGlobalsAreLost | Config.ConfigToRaw |
