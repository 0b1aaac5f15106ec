/** The netem manager's methods, proved against the transitions of module `Netem`. */
module NetemManager {
  import opened Wrappers
  import opened NetemConfig
  import opened N = Netem

  class Manager {
    var interfaces: map<string, Iface>
    var experiments: map<string, Experiment>
    ghost var kernel: map<string, Config>
    ghost var log: seq<Issued>

    ghost function S(): State
      reads this
    {
      State(interfaces, experiments, kernel, log)
    }

    constructor ()
      ensures S() == INITIAL
    {
      interfaces, experiments, kernel, log := map[], map[], map[], [];
    }

    /** One `tc` invocation; `ok` is its exit status. */
    method RunCommand(verb: Verb, dev: string, args: seq<Token>, ok: bool, ghost config: Config)
      requires args == if verb.Del? then [] else Args(config)
      modifies this`kernel, this`log
      ensures S() == RunTc(old(S()), verb, dev, config, ok)
    {
      log := log + [Issued(verb, dev, args, dev in kernel)];
      if ok {
        kernel := if verb.Del? then kernel - {dev} else kernel[dev := Effective(config)];
      }
    }

    method ApplyNetemConfig(iface: string, config: Config, ok: bool, ghost told: Config)
      requires Args(config) == Args(told)
      modifies this`kernel, this`log
      ensures S() == RunTc(old(S()), VerbFor(old(S()), iface), iface, told, ok)
    {
      var verb := Add;
      if iface in interfaces && interfaces[iface].hasNetem {
        verb := Change;
      }
      var args := BuildNetemArgs([], config);
      assert [] + Args(config) == Args(config);
      RunCommand(verb, iface, args, ok, told);
    }

    method Apply(id: string, iface: string, config: Config, ttl: int, now: int, out: Outcome) returns (ok: bool)
      modifies this
      ensures S() == N.Apply(old(S()), id, iface, config, ttl, now, out)
      ensures ok == Applies(old(S()), iface, out)
    {
      if !out.valid {
        return false;
      }
      if iface !in interfaces {
        interfaces := interfaces[iface := Iface(false, None)];
      }
      if !interfaces[iface].hasNetem {
        if !out.backupOk {
          return false;
        }
      }
      ApplyNetemConfig(iface, config, out.tcOk, config);
      if !out.tcOk {
        return false;
      }
      interfaces := interfaces[iface := Iface(true, Some(config))];
      experiments := experiments[id := Experiment(iface, config, now, ttl)];
      return true;
    }

    /** `restoreOriginalQdisc` with the field updates that follow it. */
    method Restore(iface: string, ok: bool)
      modifies this`kernel, this`log, this`interfaces
      ensures S() == Clear(old(S()), iface, ok)
    {
      RunCommand(Del, iface, [], ok, ZERO);
      if ok {
        interfaces := interfaces[iface := Iface(false, None)];
      }
    }

    method HasExperiments(iface: string) returns (found: bool)
      ensures found <==> On(experiments, iface) != {}
    {
      var rest := experiments.Keys;
      while rest != {}
        invariant rest <= experiments.Keys
        invariant forall id :: id in On(experiments, iface) ==> id in rest
        decreases rest
      {
        var id :| id in rest;
        if experiments[id].iface == iface {
          assert id in On(experiments, iface);
          return true;
        }
        rest := rest - {id};
      }
      return false;
    }

    /** The configurations on an interface, in whatever order the table is walked. */
    method CollectConfigs(iface: string) returns (configs: seq<Config>)
      ensures Elements(configs) == ConfigsOn(experiments, iface)
    {
      configs := [];
      var rest := experiments.Keys;
      ghost var seen: set<string> := {};
      while rest != {}
        invariant seen == On(experiments, iface) - rest && rest <= experiments.Keys
        invariant forall c :: c in configs <==> exists id :: id in seen && experiments[id].config == c
        decreases rest
      {
        var id :| id in rest;
        if experiments[id].iface == iface {
          configs := configs + [experiments[id].config];
          seen := seen + {id};
        }
        rest := rest - {id};
      }
      assert seen == On(experiments, iface);
    }

    /** `recalculateNetemConfig` for an interface that still has experiments. */
    method Recalculate(iface: string, ok: bool)
      requires On(experiments, iface) != {}
      modifies this`kernel, this`log
      ensures S() == RunTc(old(S()), VerbFor(old(S()), iface), iface, JoinOf(ConfigsOn(experiments, iface)), ok)
    {
      var configs := CollectConfigs(iface);
      var merged := MergeConfigs(configs);
      MergedArgs(configs);
      ApplyNetemConfig(iface, merged, ok, JoinOf(ConfigsOn(experiments, iface)));
    }

    method Revert(id: string, ok: bool) returns (done: bool)
      modifies this
      ensures S() == N.Revert(old(S()), id, ok)
      ensures done <==> ok && id in old(experiments) && old(experiments)[id].iface in old(interfaces)
    {
      if id !in experiments {
        return false;
      }
      var iface := experiments[id].iface;
      if iface !in interfaces {
        return false;
      }
      experiments := experiments - {id};
      var hasOthers := HasExperiments(iface);
      if !hasOthers {
        Restore(iface, ok);
      } else {
        Recalculate(iface, ok);
      }
      return ok;
    }

    method RevertAll(iface: string, ok: bool) returns (done: bool)
      modifies this
      ensures S() == N.RevertAll(old(S()), iface, ok)
      ensures done == (ok && iface in old(interfaces))
    {
      if iface !in interfaces {
        return false;
      }
      var toRemove := CollectIds(iface);
      ghost var before := experiments;
      for i := 0 to |toRemove|
        invariant experiments == before - Elements(toRemove[..i])
        invariant S() == old(S()).(experiments := experiments)
      {
        assert Elements(toRemove[..i + 1]) == Elements(toRemove[..i]) + {toRemove[i]};
        experiments := experiments - {toRemove[i]};
      }
      assert toRemove[..|toRemove|] == toRemove;
      Restore(iface, ok);
      return ok;
    }

    method CollectIds(iface: string) returns (ids: seq<string>)
      ensures Elements(ids) == On(experiments, iface)
    {
      ids := [];
      var rest := experiments.Keys;
      while rest != {}
        invariant rest <= experiments.Keys && Elements(ids) == On(experiments, iface) - rest
        decreases rest
      {
        var id :| id in rest;
        if experiments[id].iface == iface {
          assert Elements(ids + [id]) == Elements(ids) + {id};
          ids := ids + [id];
        }
        rest := rest - {id};
      }
    }

    /** The locked half of the cleanup loop: which experiments have outlived their TTL. */
    method CollectExpired(now: int) returns (ids: seq<string>)
      ensures forall id :: id in ids <==>
                id in experiments && experiments[id].ttl > 0 && now > experiments[id].start + experiments[id].ttl
      ensures Elements(ids) == ExpiredAt(S(), now)
    {
      ids := [];
      var rest := experiments.Keys;
      while rest != {}
        invariant rest <= experiments.Keys && Elements(ids) == ExpiredAt(S(), now) - rest
        decreases rest
      {
        var id :| id in rest;
        if experiments[id].ttl > 0 && now - experiments[id].start > experiments[id].ttl {
          assert Elements(ids + [id]) == Elements(ids) + {id};
          ids := ids + [id];
        }
        rest := rest - {id};
      }
      assert forall id :: id in ids <==> id in Elements(ids);
    }
  }

  /** Whatever the order of the collected list, its merge is told to `tc` as the join of the set. */
  lemma MergedArgs(configs: seq<Config>)
    ensures Args(Merge(configs)) == Args(JoinOf(Elements(configs)))
  {
    JoinAllIsJoin(configs);
    JoinUnique(Elements(configs), JoinAll(configs), JoinOf(Elements(configs)));
    MergeEffective(configs);
    ArgsDetermineEffective(Merge(configs), JoinAll(configs));
  }
}
