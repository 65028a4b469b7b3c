/**
 The orchestration of lib/ollama_manager.py: admission control under the
 resident-model ceiling, smart activation, updating a model and the status
 summary. Each operation takes the answers of the runtime as inputs and
 returns its result together with the commands it issues, in order.
 */
module Engine {
  import opened Wrappers
  import opened Text
  import opened Config
  import opened Runtime
  import opened Updates

  // ------------------------------------------------------ Python slices

  /** Where Python's `s[k:]` starts in a sequence of length `n`: a negative
      `k` counts from the end, and both ends are clamped. */
  function SliceStart(n: nat, k: int): (i: nat)
    ensures i <= n
    ensures 0 <= k <= n ==> i == k
    ensures k > n ==> i == n
    ensures k < 0 ==> i == if n + k < 0 then 0 else n + k
  {
    if k >= 0 then (if k <= n then k else n)
    else if n + k < 0 then 0 else n + k
  }

  /** Python `s[k:]`. */
  function SliceFrom<T>(s: seq<T>, k: int): seq<T> {
    s[SliceStart(|s|, k)..]
  }

  // ------------------------------------------------- admission control

  /** A first match in `running[1..]` is a first match in `running` when the
      head is not in `low`. */
  lemma FirstInShift(running: seq<string>, low: seq<string>, x: string)
    requires |running| > 0 && running[0] !in low
    requires exists i :: 0 <= i < |running| - 1 && running[1..][i] == x && x in low
                         && forall j :: 0 <= j < i ==> running[1..][j] !in low
    ensures exists i :: 0 <= i < |running| && running[i] == x && x in low
                        && forall j :: 0 <= j < i ==> running[j] !in low
  {
    var i :| 0 <= i < |running| - 1 && running[1..][i] == x && x in low
             && forall j :: 0 <= j < i ==> running[1..][j] !in low;
    assert running[i + 1] == x;
    forall j | 0 <= j < i + 1
      ensures running[j] !in low
    {
      if j > 0 { assert running[j] == running[1..][j - 1]; }
    }
  }

  /** The first name of `running`, in resident order, that is in `low`. */
  function FirstIn(running: seq<string>, low: seq<string>): (r: Option<string>)
    ensures r.None? <==> forall i :: 0 <= i < |running| ==> running[i] !in low
    ensures r.Some? ==> exists i :: 0 <= i < |running| && running[i] == r.value && r.value in low
                                    && forall j :: 0 <= j < i ==> running[j] !in low
  {
    if |running| == 0 then None
    else if running[0] in low then Some(running[0])
    else
      var r := FirstIn(running[1..], low);
      match r
      case None => r
      case Some(x) => FirstInShift(running, low, x); r
  }

  /** `ensure_max_loaded_respected` with the priority order as a parameter:
      while no more than `maxLoaded` models are resident nothing happens;
      otherwise the first resident model found in the low-priority tail
      `priority[maxLoaded:]` is stopped, and only that one. */
  function EnsureMaxLoadedRespected(running: seq<string>, maxLoaded: int,
                                    priority: seq<string>): (r: seq<Action>)
    ensures |running| <= maxLoaded ==> r == []
    ensures |r| <= 1
    ensures r != [] <==> |running| > maxLoaded
                         && exists i :: 0 <= i < |running| && running[i] in SliceFrom(priority, maxLoaded)
    ensures r != [] ==> r[0].Stop?
                        && exists i :: 0 <= i < |running| && running[i] == r[0].name
                                       && r[0].name in SliceFrom(priority, maxLoaded)
                                       && forall j :: 0 <= j < i ==> running[j] !in SliceFrom(priority, maxLoaded)
  {
    if |running| <= maxLoaded then []
    else
      match FirstIn(running, SliceFrom(priority, maxLoaded))
      case None => []
      case Some(n) => [Stop(n)]
  }

  /** With distinct priority names and a ceiling of at least zero, a model
      among the first `maxLoaded` priorities is never stopped. */
  lemma NeverStopsTopPriority(running: seq<string>, maxLoaded: int,
                              priority: seq<string>, i: int)
    requires Distinct(priority)
    requires 0 <= maxLoaded
    requires 0 <= i < |priority| && i < maxLoaded
    ensures Stop(priority[i]) !in EnsureMaxLoadedRespected(running, maxLoaded, priority)
  {
  }

  /** Only names from the priority list are ever stopped. */
  lemma StopsOnlyListedModels(running: seq<string>, maxLoaded: int, priority: seq<string>, n: string)
    requires Stop(n) in EnsureMaxLoadedRespected(running, maxLoaded, priority)
    ensures n in priority && n in running
  {
    var r := EnsureMaxLoadedRespected(running, maxLoaded, priority);
    assert r[0] == Stop(n);
  }

  /** Three resident models, priorities `a, b, c, d` and a ceiling of two:
      `c` is stopped. */
  lemma EvictsLowestResident()
    ensures EnsureMaxLoadedRespected(["a", "b", "c"], 2, ["a", "b", "c", "d"]) == [Stop("c")]
  {
    var tail := SliceFrom(["a", "b", "c", "d"], 2);
    assert tail == ["c", "d"];
    assert "a" !in tail && "b" !in tail by {
      assert "a" != "c" && "a" != "d" && "b" != "c" && "b" != "d";
    }
  }

  /** Resident models the priority list does not name are never reclaimed,
      however far over the ceiling they keep the runtime: one more resident
      model than the ceiling can leave nothing stopped. */
  lemma UnlistedResidentsAreKept(running: seq<string>, maxLoaded: int, priority: seq<string>)
    requires forall i :: 0 <= i < |running| ==> running[i] !in priority
    ensures EnsureMaxLoadedRespected(running, maxLoaded, priority) == []
  {
    var tail := SliceFrom(priority, maxLoaded);
    assert forall i :: 0 <= i < |tail| ==> tail[i] in priority;
  }

  /** What the source does when over capacity: the priority lookup it calls
      is not defined, so the call fails before anything is stopped. */
  datatype Fault = MissingPriorityLookup

  /** `ensure_max_loaded_respected` as written. */
  function EnsureMaxLoadedAsWritten(running: seq<string>, maxLoaded: int): (r: Result<seq<Action>, Fault>)
    ensures r.Err? <==> |running| > maxLoaded
    ensures r.Ok? ==> r.value == []
  {
    if |running| <= maxLoaded then Ok([]) else Err(MissingPriorityLookup)
  }

  /** The scenario of three resident models under a ceiling of two fails
      as written, where the corrected operation stops one model. */
  lemma AsWrittenFailsOverCapacity()
    ensures EnsureMaxLoadedAsWritten(["a", "b", "c"], 2) == Err(MissingPriorityLookup)
    ensures EnsureMaxLoadedRespected(["a", "b", "c"], 2, ["a", "b", "c", "d"]) != []
  {
    EvictsLowestResident();
  }

  /** The priority order used in place of the missing lookup: the catalog's
      model names in configuration order. */
  function Priority(cfg: AppConfig): seq<string> {
    ModelNames(cfg.models)
  }

  // --------------------------------------------------- smart activation

  /** `smart_activate_model`: an unknown key fails at once; a model that is
      not installed is pulled (with the progress display) and a failed pull
      ends the activation; then admission control runs once and the
      readiness probe decides the result. `installed` and `running` are what
      the listing and `/api/ps` return at the moment they are consulted. */
  function SmartActivate(cfg: AppConfig, key: string, installed: seq<string>,
                         pull: ProcessOutcome, running: seq<string>,
                         probe: HttpReply<ProbeBody>): (r: Run)
    ensures !HasKey(cfg.models, key) ==> r == Run(false, [])
    ensures HasKey(cfg.models, key) ==>
              var name := GetModel(cfg.models, key).value.name;
              var pulling := name !in installed;
              var pulled := !pulling || (pull.Exited? && pull.code == 0);
              (pulling ==> |r.actions| >= 1 && r.actions[0] == Pull(name, true))
              && (!pulled ==> r == Run(false, [Pull(name, true)]))
              && (pulled ==> r.ok == TestModel(probe)
                             && |r.actions| >= 1 && r.actions[|r.actions| - 1] == Probe(name))
    ensures HasKey(cfg.models, key) ==>
              var name := GetModel(cfg.models, key).value.name;
              var pulling := name !in installed;
              (!pulling || (pull.Exited? && pull.code == 0)) ==>
                r.actions == (if pulling then [Pull(name, true)] else [])
                             + EnsureMaxLoadedRespected(running, cfg.maxLoadedModels, Priority(cfg))
                             + [Probe(name)]
    ensures HasKey(cfg.models, key) && GetModel(cfg.models, key).value.name in installed ==>
              forall a :: a in r.actions ==> !a.Pull?
    ensures forall i :: 0 <= i < |r.actions| - 1 ==> !r.actions[i].Probe?
    ensures forall a :: a in r.actions && a.Stop? ==> a.name in Priority(cfg) && a.name in running
  {
    match GetModel(cfg.models, key)
    case None => Run(false, [])
    case Some(m) =>
      var evict := EnsureMaxLoadedRespected(running, cfg.maxLoadedModels, Priority(cfg));
      EvictionShape(running, cfg.maxLoadedModels, Priority(cfg));
      Activation(m.name, installed, pull, evict, probe)
  }

  /** Every action of `acts` is a stop. */
  predicate OnlyStops(acts: seq<Action>) {
    forall a :: a in acts ==> a.Stop?
  }

  /** Every stop in `acts` names a model of `names` that is resident. */
  predicate StopsAmong(acts: seq<Action>, names: seq<string>, running: seq<string>) {
    forall a :: a in acts && a.Stop? ==> a.name in names && a.name in running
  }

  /** Admission control issues only stops, of listed resident models. */
  lemma EvictionShape(running: seq<string>, maxLoaded: int, priority: seq<string>)
    ensures OnlyStops(EnsureMaxLoadedRespected(running, maxLoaded, priority))
    ensures StopsAmong(EnsureMaxLoadedRespected(running, maxLoaded, priority), priority, running)
  {
    var e := EnsureMaxLoadedRespected(running, maxLoaded, priority);
    if e != [] {
      StopsOnlyListedModels(running, maxLoaded, priority, e[0].name);
    }
  }

  /** The steps of an activation once the model is known: pull it when it
      is not installed, then run the given admission-control actions and
      the readiness probe. */
  function Activation(name: string, installed: seq<string>, pull: ProcessOutcome,
                      evict: seq<Action>, probe: HttpReply<ProbeBody>): (r: Run)
    requires OnlyStops(evict)
    ensures name !in installed ==> |r.actions| >= 1 && r.actions[0] == Pull(name, true)
    ensures name !in installed && !(pull.Exited? && pull.code == 0) ==> r == Run(false, [Pull(name, true)])
    ensures name in installed || (pull.Exited? && pull.code == 0) ==>
              r.ok == TestModel(probe)
              && r.actions == (if name !in installed then [Pull(name, true)] else []) + evict + [Probe(name)]
              && |r.actions| >= 1 && r.actions[|r.actions| - 1] == Probe(name)
    ensures name in installed ==> forall a :: a in r.actions ==> !a.Pull?
    ensures forall i :: 0 <= i < |r.actions| - 1 ==> !r.actions[i].Probe?
    ensures forall a :: a in r.actions && a.Stop? ==> a in evict
  {
    var pulling := name !in installed;
    var fetch := if pulling then PullModel(name, true, pull) else Run(true, []);
    assert fetch.actions == if pulling then [Pull(name, true)] else [];
    if !fetch.ok then fetch
    else
      var acts := fetch.actions + evict + [Probe(name)];
      assert acts[|acts| - 1] == Probe(name);
      assert pulling ==> acts[0] == Pull(name, true);
      assert forall a :: a in acts ==> a in fetch.actions || a in evict || a == Probe(name);
      assert forall i :: 0 <= i < |acts| - 1 ==> acts[i] in fetch.actions || acts[i] in evict;
      Run(TestModel(probe), acts)
  }

  /** In `pre + mid + [last]`, with no stop in `pre` and none as `last`, the
      stops are those of `mid`, at consecutive positions. */
  lemma StopsOnlyInMiddle(pre: seq<Action>, mid: seq<Action>, last: Action)
    requires forall a :: a in pre ==> !a.Stop?
    requires !last.Stop?
    ensures var s := pre + mid + [last];
            forall i :: 0 <= i < |s| && s[i].Stop? ==> |pre| <= i < |pre| + |mid| && s[i] == mid[i - |pre|]
  {
    var s := pre + mid + [last];
    forall i | 0 <= i < |s|
      ensures s[i].Stop? ==> |pre| <= i < |pre| + |mid| && s[i] == mid[i - |pre|]
    {
      if i < |pre| {
        assert s[i] == pre[i] && pre[i] in pre;
      } else if i == |s| - 1 {
        assert s[i] == last;
      } else {
        assert s[i] == mid[i - |pre|];
      }
    }
  }

  /** Activation issues at most one stop, and only when more models than
      the ceiling are resident. */
  lemma ActivationStopsAtMostOne(cfg: AppConfig, key: string, installed: seq<string>,
                                 pull: ProcessOutcome, running: seq<string>,
                                 probe: HttpReply<ProbeBody>)
    ensures var r := SmartActivate(cfg, key, installed, pull, running, probe);
            forall i, j :: 0 <= i < j < |r.actions| && r.actions[i].Stop? ==> !r.actions[j].Stop?
    ensures var r := SmartActivate(cfg, key, installed, pull, running, probe);
            |running| <= cfg.maxLoadedModels ==> forall a :: a in r.actions ==> !a.Stop?
  {
    var r := SmartActivate(cfg, key, installed, pull, running, probe);
    if HasKey(cfg.models, key) {
      var m := GetModel(cfg.models, key).value;
      var fetch := if m.name in installed then Run(true, []) else PullModel(m.name, true, pull);
      if fetch.ok {
        var evict := EnsureMaxLoadedRespected(running, cfg.maxLoadedModels, Priority(cfg));
        assert r.actions == fetch.actions + evict + [Probe(m.name)];
        StopsOnlyInMiddle(fetch.actions, evict, Probe(m.name));
      }
    }
  }
  /** Activating an installed model while no more than the ceiling are
      resident only probes it, and the probe decides the answer. */
  lemma ActivationOfInstalledWithinCapacity(cfg: AppConfig, key: string, installed: seq<string>,
                                            pull: ProcessOutcome, running: seq<string>,
                                            probe: HttpReply<ProbeBody>)
    requires HasKey(cfg.models, key)
    requires GetModel(cfg.models, key).value.name in installed
    requires |running| <= cfg.maxLoadedModels
    ensures SmartActivate(cfg, key, installed, pull, running, probe)
            == Run(TestModel(probe), [Probe(GetModel(cfg.models, key).value.name)])
  {
  }

  /** A model that has to be pulled and whose pull fails is never probed
      and nothing is stopped for it. */
  lemma FailedPullEndsActivation(cfg: AppConfig, key: string, installed: seq<string>,
                                 pull: ProcessOutcome, running: seq<string>,
                                 probe: HttpReply<ProbeBody>)
    requires HasKey(cfg.models, key)
    requires GetModel(cfg.models, key).value.name !in installed
    requires !(pull.Exited? && pull.code == 0)
    ensures var r := SmartActivate(cfg, key, installed, pull, running, probe);
            !r.ok && forall a :: a in r.actions ==> a.Pull?
  {
  }


  // ------------------------------------------------------------ updates

  /** `update_model_if_available` given the listing and registry answer
      its own update check sees, the resident models and the outcome of the
      pull: with no pending update nothing is issued and the answer is
      true; otherwise a resident model is stopped first, the registry's
      latest name is pulled with the progress display, and the pull decides. */
  function UpdateIfAvailable(name: string, installed: seq<ModelStatus>,
                             registry: HttpReply<Option<seq<RegistryModel>>>,
                             running: seq<string>, pull: ProcessOutcome): (r: Run)
    ensures name !in CheckModelUpdates(installed, registry) ==> r == Run(true, [])
    ensures name in CheckModelUpdates(installed, registry) ==>
              var latest := CheckModelUpdates(installed, registry)[name].latest;
              latest != name && BaseName(latest) == BaseName(name)
              && (r.ok <==> pull.Exited? && pull.code == 0)
              && r.actions == (if name in running then [Stop(name)] else []) + [Pull(latest, true)]
  {
    var updates := CheckModelUpdates(installed, registry);
    if name in updates then
      var stop := if name in running then [Stop(name)] else [];
      var fetch := PullModel(updates[name].latest, true, pull);
      Run(fetch.ok, stop + fetch.actions)
    else Run(true, [])
  }

  /** Updating the name an update pointed to is a no-op: it returns true and
      issues nothing, whatever is installed by then. */
  lemma UpdateSettles(name: string, installed: seq<ModelStatus>,
                      registry: HttpReply<Option<seq<RegistryModel>>>,
                      running: seq<string>, pull: ProcessOutcome,
                      after: seq<ModelStatus>, running2: seq<string>, pull2: ProcessOutcome)
    requires name in CheckModelUpdates(installed, registry)
    ensures var latest := CheckModelUpdates(installed, registry)[name].latest;
            UpdateIfAvailable(latest, after, registry, running2, pull2) == Run(true, [])
  {
    LatestIsNotReported(installed, after, registry, name);
  }

  /** The name pulled by an update is the last registry entry with the
      model's base name. */
  lemma UpdatePullsRegistryLatest(name: string, installed: seq<ModelStatus>,
                                  ms: seq<RegistryModel>, running: seq<string>,
                                  pull: ProcessOutcome, i: int)
    requires name in CheckModelUpdates(installed, Reply(200, Some(ms)))
    requires LastWithBase(ms, i, BaseName(name))
    ensures Pull(NameOf(ms[i]), true) in UpdateIfAvailable(name, installed, Reply(200, Some(ms)), running, pull).actions
  {
    UpdatesComplete(installed, ms, name);
    var r := UpdateIfAvailable(name, installed, Reply(200, Some(ms)), running, pull);
    assert r.actions[|r.actions| - 1] == Pull(NameOf(ms[i]), true);
  }

  // ------------------------------------------------------------ summary

  datatype Summary = Summary(
    ollamaRunning: bool,
    modelsInstalled: nat,
    modelsRunning: nat,
    modelsWithUpdates: nat,
    vramTotal: string,
    vramUsed: string,
    runningModels: seq<string>,
    installedModels: seq<string>,
    availableUpdates: map<string, Update>)

  /** `get_status_summary`. The source consults the listing and the resident
      models more than once (directly, inside the VRAM estimate and inside
      the update check), so each of those snapshots is its own input. */
  function StatusSummary<B>(tags: HttpReply<B>, installed: seq<ModelStatus>, running: seq<string>,
                            vramRunning: seq<string>, updateListing: seq<ModelStatus>,
                            registry: HttpReply<Option<seq<RegistryModel>>>): (r: Summary)
    ensures r.ollamaRunning <==> tags.Reply? && tags.status == 200
    ensures r.modelsInstalled == |installed| == |r.installedModels|
    ensures forall k :: 0 <= k < |installed| ==> r.installedModels[k] == installed[k].name
    ensures r.modelsRunning == |running| && r.runningModels == running
    ensures r.modelsWithUpdates == |r.availableUpdates.Keys|
    ensures r.availableUpdates == CheckModelUpdates(updateListing, registry)
    ensures r.vramTotal == TotalVram && r.vramUsed == GetVramUsage(vramRunning).usedVram
  {
    var vram := GetVramUsage(vramRunning);
    var updates := CheckModelUpdates(updateListing, registry);
    Summary(CheckOllamaRunning(tags), |installed|, |running|, |updates.Keys|,
            vram.totalVram, vram.usedVram, running, Names(installed), updates)
  }

  /** When the update check sees the same listing as the summary, no more
      models have updates than are installed. */
  lemma UpdatesWithinInstalled<B>(tags: HttpReply<B>, installed: seq<ModelStatus>, running: seq<string>,
                                  vramRunning: seq<string>,
                                  registry: HttpReply<Option<seq<RegistryModel>>>)
    ensures var s := StatusSummary(tags, installed, running, vramRunning, installed, registry);
            s.modelsWithUpdates <= s.modelsInstalled
  {
    var updates := CheckModelUpdates(installed, registry);
    var names := Names(installed);
    assert updates.Keys <= set k | k in names;
    SubsetCard(updates.Keys, set k | k in names);
    SeqSetCard(names);
  }

  /** A subset is no larger than its superset. */
  lemma {:induction false} SubsetCard<T>(a: set<T>, b: set<T>)
    requires a <= b
    ensures |a| <= |b|
    decreases |b|
  {
    if b != {} {
      var x :| x in b;
      SubsetCard(a - {x}, b - {x});
    }
  }

  /** A sequence has at least as many elements as distinct values. */
  lemma {:induction false} SeqSetCard<T>(s: seq<T>)
    ensures |set k | k in s| <= |s|
  {
    if |s| > 0 {
      SeqSetCard(s[1..]);
      assert (set k | k in s) == (set k | k in s[1..]) + {s[0]};
    }
  }
}
