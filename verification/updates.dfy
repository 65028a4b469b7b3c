/**
 Update detection of lib/ollama_manager.py (`check_model_updates`): the
 registry's model list is folded into a map from base name to the latest
 tagged name, and every installed tagged model whose base the registry
 knows under a different name is reported. The registry answer is an
 input; a failed request or an answer that is not a list of objects gives
 no updates.
 */
module Updates {
  import opened Wrappers
  import opened Text
  import opened Runtime

  // ------------------------------------------------------------ names

  /** `':' in name`: the name carries a tag. */
  predicate Tagged(name: string) {
    ':' in name
  }

  /** `name.split(':')[0]`: everything before the first colon, or the whole
      name when it has none. */
  function BaseName(name: string): (b: string)
    ensures ':' !in b
    ensures Tagged(name) ==> |b| < |name| && name[..|b| + 1] == b + [':']
    ensures !Tagged(name) ==> b == name
  {
    var parts := Split(name, ':');
    assert |parts| > 1 ==> name == parts[0] + [':'] + Join(parts[1..], ':');
    assert |parts| > 1 ==> name[..|parts[0]| + 1] == parts[0] + [':'];
    parts[0]
  }

  /** The base of `b:t` is `b`, whatever the tag. */
  lemma BaseOfTagged(b: string, t: string)
    requires ':' !in b
    ensures BaseName(b + [':'] + t) == b
  {
    SplitPrefix(b, t, ':');
  }

  // --------------------------------------------------------- registry

  /** One entry of the registry's list; `None` when it has no `name` key. */
  datatype RegistryModel = RegistryModel(name: Option<string>)

  /** `model.get('name', '')`. */
  function NameOf(m: RegistryModel): string {
    m.name.GetOr("")
  }

  /** Entry `i` of `ms` is tagged with base `b`. */
  predicate Publishes(ms: seq<RegistryModel>, i: int, b: string) {
    0 <= i < |ms| && Tagged(NameOf(ms[i])) && BaseName(NameOf(ms[i])) == b
  }

  /** Entry `i` is the last one of `ms` tagged with base `b`. */
  predicate LastWithBase(ms: seq<RegistryModel>, i: int, b: string) {
    Publishes(ms, i, b) && forall j :: i < j < |ms| ==> !Publishes(ms, j, b)
  }

  /** The registry map built by the loop over the registry's models: each
      tagged name is stored under its base, a later entry overwriting an
      earlier one; untagged names and nameless entries are skipped. */
  function RegistryMap(ms: seq<RegistryModel>): (r: map<string, string>)
    ensures forall b :: b in r ==> ':' !in b
  {
    if |ms| == 0 then map[]
    else
      var m := RegistryMap(ms[..|ms| - 1]);
      var n := NameOf(ms[|ms| - 1]);
      if Tagged(n) then m[BaseName(n) := n] else m
  }

  /** A base is in the registry map exactly when some entry publishes it,
      and it then maps to the name of the last entry that does. */
  lemma {:induction false} RegistryMapAt(ms: seq<RegistryModel>, b: string)
    ensures b in RegistryMap(ms) <==> exists i :: Publishes(ms, i, b)
    ensures b in RegistryMap(ms) ==>
              exists i :: LastWithBase(ms, i, b) && RegistryMap(ms)[b] == NameOf(ms[i])
  {
    if |ms| > 0 {
      var last := |ms| - 1;
      var front := ms[..last];
      var n := NameOf(ms[last]);
      var m := RegistryMap(front);
      RegistryMapAt(front, b);
      assert RegistryMap(ms) == if Tagged(n) then m[BaseName(n) := n] else m;
      assert forall i :: 0 <= i < last ==> front[i] == ms[i];
      if Publishes(ms, last, b) {
        assert RegistryMap(ms)[b] == n;
        assert LastWithBase(ms, last, b);
      } else {
        assert b in RegistryMap(ms) <==> b in m;
        assert forall i :: Publishes(ms, i, b) <==> Publishes(front, i, b);
        if b in m {
          var i :| LastWithBase(front, i, b) && m[b] == NameOf(front[i]);
          assert LastWithBase(ms, i, b);
        }
      }
    }
  }

  /** A base has exactly one last publishing entry. */
  lemma LastWithBaseUnique(ms: seq<RegistryModel>, i: int, j: int, b: string)
    requires LastWithBase(ms, i, b) && LastWithBase(ms, j, b)
    ensures i == j
  {
  }

  /** Every value of the registry map is a tagged name filed under its own
      base, and it is the name of the last entry published with that base. */
  lemma RegistryMapValues(ms: seq<RegistryModel>, b: string, i: int)
    requires LastWithBase(ms, i, b)
    ensures b in RegistryMap(ms)
    ensures RegistryMap(ms)[b] == NameOf(ms[i])
    ensures Tagged(RegistryMap(ms)[b]) && BaseName(RegistryMap(ms)[b]) == b
  {
    RegistryMapAt(ms, b);
    var j :| LastWithBase(ms, j, b) && RegistryMap(ms)[b] == NameOf(ms[j]);
    LastWithBaseUnique(ms, i, j, b);
  }

  // ---------------------------------------------------------- updates

  /** The record reported for an installed model with a newer version. */
  datatype Update = Update(current: string, latest: string, baseName: string)

  /** An installed name is reported: it is tagged, its base is in the
      registry map, and the registry's name for that base differs. */
  predicate Qualifies(name: string, rm: map<string, string>) {
    Tagged(name) && BaseName(name) in rm && rm[BaseName(name)] != name
  }

  /** The loop over the installed models. */
  function Reconcile(names: seq<string>, rm: map<string, string>): (r: map<string, Update>)
    ensures forall k :: k in r <==> k in names && Qualifies(k, rm)
    ensures forall k :: k in r ==> r[k].current == k && r[k].baseName == BaseName(k)
                                   && BaseName(k) in rm && r[k].latest == rm[BaseName(k)]
  {
    if |names| == 0 then map[]
    else
      var rest := Reconcile(names[1..], rm);
      var k := names[0];
      assert forall n :: n in names <==> n == k || n in names[1..];
      if Qualifies(k, rm) then rest[k := Update(k, rm[BaseName(k)], BaseName(k))] else rest
  }

  /** `check_model_updates` given the installed listing and the registry's
      answer (`None` when the body is not a list of objects): no updates
      unless the registry answered 200 with such a list. */
  function CheckModelUpdates(installed: seq<ModelStatus>,
                             registry: HttpReply<Option<seq<RegistryModel>>>): (r: map<string, Update>)
    ensures !(registry.Reply? && registry.status == 200 && registry.body.Some?) ==> r == map[]
    ensures forall k :: k in r ==> k in Names(installed)
    ensures forall k :: k in r ==> r[k].current == k && r[k].latest != k
                                   && r[k].baseName == BaseName(k)
                                   && Tagged(r[k].latest) && BaseName(r[k].latest) == BaseName(k)
  {
    if registry.Unreachable? || registry.status != 200 || registry.body.None? then map[]
    else
      var ms := registry.body.value;
      var rm := RegistryMap(ms);
      var r := Reconcile(Names(installed), rm);
      assert forall k :: k in r ==> Tagged(r[k].latest) && BaseName(r[k].latest) == BaseName(k) by {
        forall k | k in r ensures Tagged(r[k].latest) && BaseName(r[k].latest) == BaseName(k) {
          RegistryMapAt(ms, BaseName(k));
          var i :| LastWithBase(ms, i, BaseName(k)) && rm[BaseName(k)] == NameOf(ms[i]);
        }
      }
      r
  }

  /** The installed models reported are exactly the tagged ones whose base
      the registry publishes under another name, each paired with the last
      such name in the registry's list. */
  lemma UpdatesComplete(installed: seq<ModelStatus>, ms: seq<RegistryModel>, name: string)
    ensures var r := CheckModelUpdates(installed, Reply(200, Some(ms)));
            name in r <==>
              name in Names(installed) && Tagged(name)
              && exists i :: LastWithBase(ms, i, BaseName(name)) && NameOf(ms[i]) != name
    ensures var r := CheckModelUpdates(installed, Reply(200, Some(ms)));
            forall i :: name in r && LastWithBase(ms, i, BaseName(name)) ==> r[name].latest == NameOf(ms[i])
  {
    var rm := RegistryMap(ms);
    var b := BaseName(name);
    RegistryMapAt(ms, b);
    if Tagged(name) && b in rm {
      var i :| LastWithBase(ms, i, b) && rm[b] == NameOf(ms[i]);
      forall j | LastWithBase(ms, j, b) ensures j == i {
        LastWithBaseUnique(ms, i, j, b);
      }
    }
    forall i | LastWithBase(ms, i, b) ensures b in rm && rm[b] == NameOf(ms[i]) {
      RegistryMapValues(ms, b, i);
    }
  }

  /** The report depends on the installed names only as a set: order and
      repetition in the listing do not matter. */
  lemma UpdatesDependOnNameSet(a: seq<ModelStatus>, b: seq<ModelStatus>,
                               registry: HttpReply<Option<seq<RegistryModel>>>)
    requires forall n :: n in Names(a) <==> n in Names(b)
    ensures CheckModelUpdates(a, registry) == CheckModelUpdates(b, registry)
  {
    if registry.Reply? && registry.status == 200 && registry.body.Some? {
      ReconcileByNameSet(Names(a), Names(b), RegistryMap(registry.body.value));
    }
  }

  lemma ReconcileByNameSet(na: seq<string>, nb: seq<string>, rm: map<string, string>)
    requires forall n :: n in na <==> n in nb
    ensures Reconcile(na, rm) == Reconcile(nb, rm)
  {
    var ra := Reconcile(na, rm);
    var rb := Reconcile(nb, rm);
    assert forall k :: k in ra <==> k in rb;
    assert forall k :: k in ra ==> ra[k] == rb[k];
  }

  /** Once the latest name a report points to is what is installed, that
      name is never reported itself: pulling the update settles it. */
  lemma LatestIsNotReported(installed: seq<ModelStatus>, after: seq<ModelStatus>,
                            registry: HttpReply<Option<seq<RegistryModel>>>, k: string)
    requires k in CheckModelUpdates(installed, registry)
    ensures CheckModelUpdates(installed, registry)[k].latest !in CheckModelUpdates(after, registry)
  {
    var latest := CheckModelUpdates(installed, registry)[k].latest;
    var ms := registry.body.value;
    var rm := RegistryMap(ms);
    assert latest == rm[BaseName(k)];
    assert BaseName(latest) == BaseName(k);
    RegistryMapAt(ms, BaseName(k));
  }
}
