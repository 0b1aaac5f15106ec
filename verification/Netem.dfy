/**
 The netem experiment manager as a transition system: the operations of the manager, the kernel
 state they act on, TTL timers, and the cleanup loop that collects expired experiments under the
 lock and reverts them later.  Every `tc` command may fail, and a failed one changes nothing.
 */
module Netem {
  import opened Wrappers
  import opened NetemConfig

  datatype Iface = Iface(hasNetem: bool, currentConfig: Option<Config>)

  datatype Experiment = Experiment(iface: string, config: Config, start: int, ttl: int)

  datatype Verb = Add | Change | Del

  /** A command that was run, and whether the device had netem at that moment. */
  datatype Issued = Issued(verb: Verb, dev: string, args: seq<Token>, present: bool)

  /** The manager's two tables, and the kernel as the commands left it. */
  datatype State = State(
    interfaces: map<string, Iface>, experiments: map<string, Experiment>, kernel: map<string, Config>, log: seq<Issued>)

  const INITIAL := State(map[], map[], map[], [])

  /** How the outside world answers an `Apply`. */
  datatype Outcome = Outcome(valid: bool, backupOk: bool, tcOk: bool)

  // ---------------------------------------------------------------- operations

  function On(experiments: map<string, Experiment>, iface: string): set<string> {
    set id | id in experiments && experiments[id].iface == iface
  }

  ghost function ConfigsOn(experiments: map<string, Experiment>, iface: string): set<Config> {
    set id | id in On(experiments, iface) :: experiments[id].config
  }

  /** The least upper bound of zero and a set of configurations. */
  ghost function JoinOf(configs: set<Config>): (r: Config)
    ensures IsJoin(configs, r)
  {
    if configs == {} then ZERO
    else
      var c :| c in configs;
      var r := Join(JoinOf(configs - {c}), c);
      JoinWith(configs, c, JoinOf(configs - {c}));
      r
  }

  lemma JoinWith(configs: set<Config>, c: Config, r: Config)
    requires c in configs && IsJoin(configs - {c}, r)
    ensures IsJoin(configs, Join(r, c))
  {
    forall d | d in configs ensures Leq(d, Join(r, c)) {
      if d != c {
        assert d in configs - {c};
      }
    }
    forall b | UpperBound(configs, b) ensures Leq(Join(r, c), b) {
      assert UpperBound(configs - {c}, b);
    }
  }

  function RunTc(s: State, verb: Verb, dev: string, config: Config, ok: bool): State {
    s.(log := s.log + [Issued(verb, dev, if verb.Del? then [] else Args(config), dev in s.kernel)],
       kernel := if !ok then s.kernel else if verb.Del? then s.kernel - {dev} else s.kernel[dev := Effective(config)])
  }

  function Known(s: State, iface: string): State {
    if iface in s.interfaces then s else s.(interfaces := s.interfaces[iface := Iface(false, None)])
  }

  function VerbFor(s: State, iface: string): Verb {
    if iface in s.interfaces && s.interfaces[iface].hasNetem then Change else Add
  }

  predicate Applies(s: State, iface: string, out: Outcome) {
    out.valid && out.tcOk && (VerbFor(s, iface).Change? || out.backupOk)
  }

  function Apply(s: State, id: string, iface: string, config: Config, ttl: int, now: int, out: Outcome): State {
    if !out.valid then s
    else if VerbFor(s, iface).Add? && !out.backupOk then Known(s, iface)
    else
      var t := RunTc(Known(s, iface), VerbFor(s, iface), iface, config, out.tcOk);
      if !out.tcOk then t
      else t.(interfaces := t.interfaces[iface := Iface(true, Some(config))],
              experiments := t.experiments[id := Experiment(iface, config, now, ttl)])
  }

  function Clear(s: State, iface: string, ok: bool): State {
    var t := RunTc(s, Del, iface, ZERO, ok);
    if ok then t.(interfaces := t.interfaces[iface := Iface(false, None)]) else t
  }

  ghost function Revert(s: State, id: string, ok: bool): State {
    if id !in s.experiments || s.experiments[id].iface !in s.interfaces then s
    else
      var iface := s.experiments[id].iface;
      var left := s.(experiments := s.experiments - {id});
      if On(left.experiments, iface) == {} then Clear(left, iface, ok)
      else RunTc(left, VerbFor(s, iface), iface, JoinOf(ConfigsOn(left.experiments, iface)), ok)
  }

  function RevertAll(s: State, iface: string, ok: bool): State {
    if iface !in s.interfaces then s
    else Clear(s.(experiments := s.experiments - On(s.experiments, iface)), iface, ok)
  }

  // ---------------------------------------------------------------- safety

  /** The flag of every interface tells whether the kernel has netem on it. */
  ghost predicate Mirrors(s: State) {
    forall i :: i in s.kernel <==> i in s.interfaces && s.interfaces[i].hasNetem
  }

  /** Every live experiment runs on a known interface that has netem. */
  ghost predicate LiveHaveNetem(s: State) {
    forall id :: id in s.experiments ==> s.experiments[id].iface in s.kernel
  }

  /** "add" was only ever issued where netem was absent, and "change" where it was present. */
  ghost predicate LogLegal(s: State) {
    forall i :: 0 <= i < |s.log| ==>
      (s.log[i].verb.Add? ==> !s.log[i].present) && (s.log[i].verb.Change? ==> s.log[i].present)
  }

  ghost predicate Safe(s: State) {
    Mirrors(s) && LiveHaveNetem(s) && LogLegal(s)
  }

  lemma ApplySafe(s: State, id: string, iface: string, config: Config, ttl: int, now: int, out: Outcome)
    requires Safe(s)
    ensures Safe(Apply(s, id, iface, config, ttl, now, out))
  {
  }

  lemma ClearSafe(s: State, iface: string, ok: bool)
    requires Mirrors(s) && LogLegal(s) && iface in s.interfaces && LiveHaveNetem(s) && On(s.experiments, iface) == {}
    ensures Safe(Clear(s, iface, ok))
  {
    var t := Clear(s, iface, ok);
    forall id | id in t.experiments ensures t.experiments[id].iface in t.kernel {
      assert id !in On(s.experiments, iface);
    }
  }

  lemma RevertSafe(s: State, id: string, ok: bool)
    requires Safe(s)
    ensures Safe(Revert(s, id, ok))
  {
    if id in s.experiments {
      var iface := s.experiments[id].iface;
      var left := s.(experiments := s.experiments - {id});
      if On(left.experiments, iface) == {} {
        ClearSafe(left, iface, ok);
      }
    }
  }

  lemma RevertAllSafe(s: State, iface: string, ok: bool)
    requires Safe(s)
    ensures Safe(RevertAll(s, iface, ok))
  {
    if iface in s.interfaces {
      var left := s.(experiments := s.experiments - On(s.experiments, iface));
      assert On(left.experiments, iface) == {};
      ClearSafe(left, iface, ok);
    }
  }

  // ---------------------------------------------------------------- what each operation does

  predicate HasNetem(s: State, iface: string) {
    iface in s.interfaces && s.interfaces[iface].hasNetem
  }

  /** Refused before any command: nothing happens, or the interface merely becomes known. */
  lemma ApplyRefused(s: State, id: string, iface: string, config: Config, ttl: int, now: int, out: Outcome)
    requires !out.valid || (!HasNetem(s, iface) && !out.backupOk)
    ensures var t := Apply(s, id, iface, config, ttl, now, out);
            && t.experiments == s.experiments && t.kernel == s.kernel && t.log == s.log
            && t.interfaces == (if !out.valid || iface in s.interfaces then s.interfaces
                                else s.interfaces[iface := Iface(false, None)])
  {
  }

  /**
   Otherwise one command goes out, "change" where the interface has netem and "add" elsewhere, with
   the configuration's arguments; only its success changes the kernel and records the experiment.
   */
  lemma ApplyIssues(s: State, id: string, iface: string, config: Config, ttl: int, now: int, out: Outcome)
    requires out.valid && (HasNetem(s, iface) || out.backupOk)
    ensures var t := Apply(s, id, iface, config, ttl, now, out);
            && t.log == s.log + [Issued(if HasNetem(s, iface) then Change else Add, iface, Args(config), iface in s.kernel)]
            && t.experiments == (if out.tcOk then s.experiments[id := Experiment(iface, config, now, ttl)] else s.experiments)
            && t.kernel == (if out.tcOk then s.kernel[iface := Effective(config)] else s.kernel)
            && iface in t.interfaces && (out.tcOk ==> t.interfaces[iface] == Iface(true, Some(config)))
  {
  }

  /** Some other live experiment shares the interface of `id`. */
  ghost predicate Shares(s: State, id: string)
    requires id in s.experiments
  {
    exists k :: k in s.experiments && k != id && s.experiments[k].iface == s.experiments[id].iface
  }

  lemma SharesExactly(s: State, id: string)
    requires id in s.experiments
    ensures Shares(s, id) <==> On(s.experiments - {id}, s.experiments[id].iface) != {}
  {
    var rest, iface := s.experiments - {id}, s.experiments[id].iface;
    if k :| k in s.experiments && k != id && s.experiments[k].iface == iface {
      assert k in On(rest, iface);
    }
    if On(rest, iface) != {} {
      var k :| k in On(rest, iface);
      assert k in s.experiments && k != id && s.experiments[k].iface == iface;
    }
  }

  /** Reverting the last experiment of an interface forgets it and deletes netem there. */
  lemma RevertLast(s: State, id: string, ok: bool)
    requires Safe(s) && id in s.experiments && !Shares(s, id)
    ensures var t, iface := Revert(s, id, ok), s.experiments[id].iface;
            && t.experiments == s.experiments - {id}
            && t.log == s.log + [Issued(Del, iface, [], true)]
            && t.kernel == (if ok then s.kernel - {iface} else s.kernel)
            && t.interfaces == (if ok then s.interfaces[iface := Iface(false, None)] else s.interfaces)
  {
    SharesExactly(s, id);
    assert s.experiments[id].iface in s.kernel;
  }

  /** The configurations of the other live experiments on the interface of `id`. */
  ghost function OtherConfigs(s: State, id: string): set<Config>
    requires id in s.experiments
  {
    set k | k in s.experiments && k != id && s.experiments[k].iface == s.experiments[id].iface :: s.experiments[k].config
  }

  /** Reverting one of several forgets it and tells the kernel about the others; failing leaves the kernel. */
  lemma RevertShared(s: State, id: string, ok: bool)
    requires Safe(s) && id in s.experiments && Shares(s, id)
    ensures var t, iface := Revert(s, id, ok), s.experiments[id].iface;
            && t.experiments == s.experiments - {id} && t.interfaces == s.interfaces
            && t.log == s.log + [Issued(Change, iface, Args(JoinOf(OtherConfigs(s, id))), true)]
            && t.kernel == (if ok then s.kernel[iface := Effective(JoinOf(OtherConfigs(s, id)))] else s.kernel)
  {
    SharesExactly(s, id);
    OthersOn(s, id);
    assert s.experiments[id].iface in s.kernel;
  }

  lemma OthersOn(s: State, id: string)
    requires id in s.experiments
    ensures ConfigsOn(s.experiments - {id}, s.experiments[id].iface) == OtherConfigs(s, id)
  {
    var iface, rest, others := s.experiments[id].iface, s.experiments - {id}, OtherConfigs(s, id);
    forall c | c in others ensures c in ConfigsOn(rest, iface) {
      var k :| k in s.experiments && k != id && s.experiments[k].iface == iface && s.experiments[k].config == c;
      assert k in On(rest, iface) && rest[k].config == c;
    }
    forall c | c in ConfigsOn(rest, iface) ensures c in others {
      var k :| k in On(rest, iface) && rest[k].config == c;
      assert k in s.experiments && k != id && s.experiments[k].iface == iface && s.experiments[k].config == c;
    }
  }

  /** Reverting an unknown ID, or everything on an unknown interface, does nothing. */
  lemma RevertUnknown(s: State, name: string, ok: bool)
    ensures name !in s.experiments ==> Revert(s, name, ok) == s
    ensures name !in s.interfaces ==> RevertAll(s, name, ok) == s
  {
  }

  /** Reverting everything on a known interface forgets its experiments, and no others, and deletes netem there. */
  lemma RevertAllForgets(s: State, iface: string, ok: bool)
    requires iface in s.interfaces
    ensures var t := RevertAll(s, iface, ok);
            && (forall k :: k in t.experiments <==> k in s.experiments && s.experiments[k].iface != iface)
            && (forall k :: k in t.experiments && k in s.experiments ==> t.experiments[k] == s.experiments[k])
            && t.log == s.log + [Issued(Del, iface, [], iface in s.kernel)]
            && t.kernel == (if ok then s.kernel - {iface} else s.kernel)
            && t.interfaces == (if ok then s.interfaces[iface := Iface(false, None)] else s.interfaces)
  {
  }

  // ---------------------------------------------------------------- timers, cleanup, runs

  datatype Timer = Timer(id: string, due: int)

  /**
   `timers` are the pending `AfterFunc` calls, `expired` the IDs a cleanup scan has collected and
   not yet reverted, `used` every ID ever recorded.
   */
  datatype World = World(net: State, now: int, timers: multiset<Timer>, expired: set<string>, used: set<string>)

  const START := World(INITIAL, 0, multiset{}, {}, {})

  datatype Event =
    | Applied(id: string, iface: string, config: Config, ttl: int, out: Outcome)
    | Reverted(id: string, ok: bool)
    | RevertedAll(iface: string, ok: bool)
    | TimerFired(timer: Timer, ok: bool)
    | Scanned
    | CleanedUp(id: string, ok: bool)
    | TimePassed(amount: nat)

  /** What the environment must grant before an event can happen. */
  ghost predicate Enabled(w: World, e: Event) {
    match e
    case TimerFired(t, _) => t in w.timers && t.due <= w.now
    case CleanedUp(id, _) => id in w.expired
    case _ => true
  }

  function ExpiredAt(s: State, now: int): set<string> {
    set id | id in s.experiments && s.experiments[id].ttl > 0 && now - s.experiments[id].start > s.experiments[id].ttl
  }

  ghost function Step(w: World, e: Event): World {
    match e
    case Applied(id, iface, config, ttl, out) =>
      var applied := Applies(w.net, iface, out);
      w.(net := Apply(w.net, id, iface, config, ttl, w.now, out),
         timers := if applied && ttl > 0 then w.timers + multiset{Timer(id, w.now + ttl)} else w.timers,
         used := if applied then w.used + {id} else w.used)
    case Reverted(id, ok) => w.(net := Revert(w.net, id, ok))
    case RevertedAll(iface, ok) => w.(net := RevertAll(w.net, iface, ok))
    case TimerFired(t, ok) => w.(net := Revert(w.net, t.id, ok), timers := w.timers - multiset{t})
    case Scanned => w.(expired := w.expired + ExpiredAt(w.net, w.now))
    case CleanedUp(id, ok) => w.(net := Revert(w.net, id, ok), expired := w.expired - {id})
    case TimePassed(amount) => w.(now := w.now + amount)
  }

  ghost function Run(w: World, events: seq<Event>): World
    decreases |events|
  {
    if events == [] then w else Run(Step(w, events[0]), events[1..])
  }

  ghost predicate Possible(w: World, events: seq<Event>)
    decreases |events|
  {
    events != [] ==> Enabled(w, events[0]) && Possible(Step(w, events[0]), events[1..])
  }

  lemma StepSafe(w: World, e: Event)
    requires Safe(w.net)
    ensures Safe(Step(w, e).net)
  {
    match e
    case Applied(id, iface, config, ttl, out) => ApplySafe(w.net, id, iface, config, ttl, w.now, out);
    case Reverted(id, ok) => RevertSafe(w.net, id, ok);
    case RevertedAll(iface, ok) => RevertAllSafe(w.net, iface, ok);
    case TimerFired(t, ok) => RevertSafe(w.net, t.id, ok);
    case CleanedUp(id, ok) => RevertSafe(w.net, id, ok);
    case Scanned =>
    case TimePassed(_) =>
  }

  /** Safety over every interleaving, with any commands failing. */
  lemma {:induction false} AlwaysSafe(w: World, events: seq<Event>)
    requires Safe(w.net)
    ensures Safe(Run(w, events).net)
    decreases |events|
  {
    if events == [] {
    } else {
      StepSafe(w, events[0]);
      AlwaysSafe(Step(w, events[0]), events[1..]);
    }
  }

  // ---------------------------------------------------------------- experiments do end

  /** A scan collects exactly the live experiments past a positive TTL, besides those it held. */
  lemma ScanCollectsExactly(w: World, id: string)
    ensures id in Step(w, Scanned).expired <==>
            id in w.expired || (id in w.net.experiments && w.net.experiments[id].ttl > 0
                                && w.now > w.net.experiments[id].start + w.net.experiments[id].ttl)
  {
  }

  /** Cleanup ends every experiment that has outlived its TTL. */
  lemma CleanupEndsExpired(w: World, id: string, ok: bool)
    requires Safe(w.net) && id in w.net.experiments && w.net.experiments[id].ttl > 0
    requires w.now > w.net.experiments[id].start + w.net.experiments[id].ttl
    ensures Enabled(Step(w, Scanned), CleanedUp(id, ok))
    ensures id !in Step(Step(w, Scanned), CleanedUp(id, ok)).net.experiments
  {
    ScanCollectsExactly(w, id);
    RevertRemoves(w.net, id, ok);
  }

  /** The timer that a successful Apply sets can fire once the TTL is over, and ends the experiment. */
  lemma TimerEndsExperiment(w: World, id: string, iface: string, config: Config, ttl: int, out: Outcome, wait: nat, ok: bool)
    requires Safe(w.net) && Applies(w.net, iface, out) && 0 < ttl <= wait
    ensures var timer := Timer(id, w.now + ttl);
            var later := Step(Step(w, Applied(id, iface, config, ttl, out)), TimePassed(wait));
            Enabled(later, TimerFired(timer, ok)) && id !in Step(later, TimerFired(timer, ok)).net.experiments
  {
    StepSafe(w, Applied(id, iface, config, ttl, out));
    RevertRemoves(Step(w, Applied(id, iface, config, ttl, out)).net, id, ok);
    assert Timer(id, w.now + ttl) in Step(w, Applied(id, iface, config, ttl, out)).timers;
  }

  lemma RevertRemoves(s: State, id: string, ok: bool)
    requires Safe(s)
    ensures id !in Revert(s, id, ok).experiments
  {
    assert id in s.experiments ==> s.experiments[id].iface in s.kernel;
  }

  // ---------------------------------------------------------------- leftovers

  /** Netem is left on an interface that no live experiment uses. */
  ghost predicate Orphan(s: State, iface: string) {
    iface in s.kernel && On(s.experiments, iface) == {}
  }

  /** The only experiment on `iface` is `id`. */
  ghost predicate Last(s: State, id: string, iface: string) {
    On(s.experiments, iface) == {id}
  }

  /** A failed delete for the last experiment, or an ID moved away to another interface. */
  ghost predicate LeavesBehind(w: World, e: Event, iface: string) {
    match e
    case Applied(id, to, _, _, out) => Applies(w.net, to, out) && to != iface && Last(w.net, id, iface)
    case Reverted(id, ok) => !ok && Last(w.net, id, iface)
    case TimerFired(t, ok) => !ok && Last(w.net, t.id, iface)
    case CleanedUp(id, ok) => !ok && Last(w.net, id, iface)
    case RevertedAll(on, ok) => !ok && on == iface
    case _ => false
  }

  lemma ApplyOrphans(w: World, e: Event, iface: string)
    requires Safe(w.net) && iface in w.net.kernel && On(w.net.experiments, iface) != {} && e.Applied?
    ensures Orphan(Step(w, e).net, iface) <==> LeavesBehind(w, e, iface)
  {
    var s, t := w.net, Step(w, e).net;
    if Applies(s, e.iface, e.out) {
      assert t.experiments == s.experiments[e.id := Experiment(e.iface, e.config, w.now, e.ttl)];
      if e.iface == iface {
        assert e.id in On(t.experiments, iface);
      } else {
        assert On(t.experiments, iface) == On(s.experiments, iface) - {e.id};
      }
    } else {
      assert t.experiments == s.experiments && iface in t.kernel;
    }
  }

  lemma RevertOrphans(s: State, id: string, ok: bool, iface: string)
    requires Safe(s) && iface in s.kernel && On(s.experiments, iface) != {}
    ensures Orphan(Revert(s, id, ok), iface) <==> !ok && Last(s, id, iface)
  {
    var t := Revert(s, id, ok);
    if id in s.experiments {
      assert On(t.experiments, iface) == On(s.experiments, iface) - {id};
      assert On((s.experiments - {id}), s.experiments[id].iface) == On(s.experiments, s.experiments[id].iface) - {id};
      if s.experiments[id].iface != iface {
        assert id !in On(s.experiments, iface);
      }
    } else {
      assert id !in On(s.experiments, iface);
    }
  }

  /** A step abandons netem on an interface in use exactly when it fails to delete it or reuses an ID. */
  lemma OrphanExactly(w: World, e: Event, iface: string)
    requires Safe(w.net) && iface in w.net.kernel && On(w.net.experiments, iface) != {}
    ensures Orphan(Step(w, e).net, iface) <==> LeavesBehind(w, e, iface)
  {
    match e
    case Applied(_, _, _, _, _) => ApplyOrphans(w, e, iface);
    case Reverted(id, ok) => RevertOrphans(w.net, id, ok, iface);
    case TimerFired(t, ok) => RevertOrphans(w.net, t.id, ok, iface);
    case CleanedUp(id, ok) => RevertOrphans(w.net, id, ok, iface);
    case RevertedAll(on, ok) =>
      var t := RevertAll(w.net, on, ok);
      if on == iface {
        assert On(t.experiments, iface) == {};
      } else {
        assert On(t.experiments, iface) == On(w.net.experiments, iface);
      }
    case Scanned =>
    case TimePassed(_) =>
  }

  /** An interface gains netem only together with an experiment. */
  lemma NewNetemHasExperiment(w: World, e: Event, iface: string)
    requires Safe(w.net) && iface !in w.net.kernel
    ensures iface in Step(w, e).net.kernel ==> On(Step(w, e).net.experiments, iface) != {}
  {
    if e.Applied? && iface in Step(w, e).net.kernel {
      assert e.id in On(Step(w, e).net.experiments, iface);
    } else if e.Reverted? || e.TimerFired? || e.CleanedUp? {
      var id := if e.Reverted? then e.id else if e.TimerFired? then e.timer.id else e.id;
      assert id in w.net.experiments ==> w.net.experiments[id].iface != iface;
    }
  }

  /** IDs are never recorded twice and every delete succeeds. */
  ghost predicate Tidy(w: World, e: Event) {
    match e
    case Applied(id, iface, _, _, out) => Applies(w.net, iface, out) ==> id !in w.used
    case Reverted(_, ok) => ok
    case TimerFired(_, ok) => ok
    case CleanedUp(_, ok) => ok
    case RevertedAll(_, ok) => ok
    case _ => true
  }

  ghost predicate TidyRun(w: World, events: seq<Event>)
    decreases |events|
  {
    events != [] ==> Tidy(w, events[0]) && TidyRun(Step(w, events[0]), events[1..])
  }

  ghost predicate NoOrphans(w: World) {
    && (forall i :: i in w.net.kernel ==> On(w.net.experiments, i) != {})
    && (forall id :: id in w.net.experiments ==> id in w.used)
  }

  lemma TidyStep(w: World, e: Event)
    requires Safe(w.net) && NoOrphans(w) && Tidy(w, e)
    ensures NoOrphans(Step(w, e))
  {
    var w' := Step(w, e);
    forall i | i in w'.net.kernel ensures On(w'.net.experiments, i) != {} {
      if i in w.net.kernel {
        OrphanExactly(w, e, i);
        if e.Applied? && Last(w.net, e.id, i) {
          assert e.id in On(w.net.experiments, i);
        }
      } else {
        NewNetemHasExperiment(w, e, i);
      }
    }
    UsedGrows(w, e);
  }

  lemma UsedGrows(w: World, e: Event)
    requires forall id :: id in w.net.experiments ==> id in w.used
    ensures forall id :: id in Step(w, e).net.experiments ==> id in Step(w, e).used
    ensures w.used <= Step(w, e).used
  {
  }

  ghost predicate ExactlyWhereLive(s: State) {
    forall i :: i in s.kernel <==> exists id :: id in s.experiments && s.experiments[id].iface == i
  }

  lemma NoOrphansExact(w: World)
    requires Safe(w.net) && NoOrphans(w)
    ensures ExactlyWhereLive(w.net)
  {
    forall i | i in w.net.kernel ensures exists id :: id in w.net.experiments && w.net.experiments[id].iface == i {
      var id :| id in On(w.net.experiments, i);
    }
  }

  /** With fresh IDs and no failed delete, netem is present exactly where a live experiment runs. */
  lemma {:induction false} NetemExactlyWhereLive(w: World, events: seq<Event>)
    requires Safe(w.net) && NoOrphans(w) && TidyRun(w, events)
    ensures ExactlyWhereLive(Run(w, events).net)
    decreases |events|
  {
    if events == [] {
      NoOrphansExact(w);
    } else {
      StepSafe(w, events[0]);
      TidyStep(w, events[0]);
      NetemExactlyWhereLive(Step(w, events[0]), events[1..]);
    }
  }

  ghost predicate OrphanFree(s: State) {
    forall i :: i in s.kernel ==> On(s.experiments, i) != {}
  }

  /** The event abandons netem on some interface. */
  ghost predicate Abandons(w: World, e: Event) {
    exists i :: i in w.net.kernel && LeavesBehind(w, e, i)
  }

  lemma OrphanFreeExactly(w: World, e: Event)
    requires Safe(w.net) && OrphanFree(w.net)
    ensures OrphanFree(Step(w, e).net) <==> !Abandons(w, e)
  {
    var t := Step(w, e).net;
    if i :| i in w.net.kernel && LeavesBehind(w, e, i) {
      OrphanExactly(w, e, i);
      assert Orphan(t, i);
    } else {
      forall i | i in t.kernel ensures On(t.experiments, i) != {} {
        if i in w.net.kernel {
          OrphanExactly(w, e, i);
        } else {
          NewNetemHasExperiment(w, e, i);
        }
      }
    }
  }

  ghost predicate OrphanFreeThroughout(w: World, events: seq<Event>)
    decreases |events|
  {
    OrphanFree(w.net) && (events != [] ==> OrphanFreeThroughout(Step(w, events[0]), events[1..]))
  }

  ghost predicate NeverAbandons(w: World, events: seq<Event>)
    decreases |events|
  {
    events != [] ==> !Abandons(w, events[0]) && NeverAbandons(Step(w, events[0]), events[1..])
  }

  /** After every event of a run netem is only where an experiment is live, exactly when no event abandons it. */
  lemma {:induction false} OrphanFreeOverRuns(w: World, events: seq<Event>)
    requires Safe(w.net) && OrphanFree(w.net)
    ensures OrphanFreeThroughout(w, events) <==> NeverAbandons(w, events)
    decreases |events|
  {
    if events == [] {
    } else {
      OrphanFreeExactly(w, events[0]);
      if !Abandons(w, events[0]) {
        StepSafe(w, events[0]);
        OrphanFreeOverRuns(Step(w, events[0]), events[1..]);
      }
    }
  }

  // ---------------------------------------------------------------- no early automatic revert

  /** Pending timers and collected IDs concern only experiments whose TTL they were made for. */
  ghost predicate TimersMatch(w: World) {
    && (forall id :: id in w.net.experiments ==> id in w.used)
    && (forall t :: t in w.timers ==> t.id in w.used)
    && (forall id :: id in w.expired ==> id in w.used)
    && (forall t :: t in w.timers && t.id in w.net.experiments ==>
          w.net.experiments[t.id].ttl > 0 && t.due == w.net.experiments[t.id].start + w.net.experiments[t.id].ttl)
    && (forall id :: id in w.expired && id in w.net.experiments ==>
          w.net.experiments[id].ttl > 0 && w.now > w.net.experiments[id].start + w.net.experiments[id].ttl)
  }

  ghost predicate Fresh(w: World, e: Event) {
    e.Applied? && Applies(w.net, e.iface, e.out) ==> e.id !in w.used
  }

  ghost predicate FreshRun(w: World, events: seq<Event>)
    decreases |events|
  {
    events != [] ==> Fresh(w, events[0]) && FreshRun(Step(w, events[0]), events[1..])
  }

  lemma RevertShrinks(s: State, id: string, ok: bool)
    ensures Revert(s, id, ok).experiments == s.experiments
            || Revert(s, id, ok).experiments == s.experiments - {id}
  {
  }

  lemma TimersMatchLess(w: World, w': World)
    requires TimersMatch(w) && w'.now >= w.now && w'.used == w.used
    requires forall id :: id in w'.net.experiments ==> id in w.net.experiments && w'.net.experiments[id] == w.net.experiments[id]
    requires (forall t :: t in w'.timers ==> t in w.timers) && w'.expired <= w.expired
    ensures TimersMatch(w')
  {
  }

  lemma TimersMatchApply(w: World, e: Event)
    requires TimersMatch(w) && Fresh(w, e) && e.Applied? && Applies(w.net, e.iface, e.out)
    ensures TimersMatch(Step(w, e))
  {
    var w' := Step(w, e);
    assert w'.net.experiments == w.net.experiments[e.id := Experiment(e.iface, e.config, w.now, e.ttl)];
    forall t | t in w'.timers && t.id in w'.net.experiments
      ensures w'.net.experiments[t.id].ttl > 0
      ensures t.due == w'.net.experiments[t.id].start + w'.net.experiments[t.id].ttl
    {
      if t in w.timers {
        assert t.id != e.id;
      } else {
        assert t == Timer(e.id, w.now + e.ttl);
      }
    }
  }

  lemma TimersMatchStep(w: World, e: Event)
    requires TimersMatch(w) && Fresh(w, e)
    ensures TimersMatch(Step(w, e))
  {
    match e
    case Applied(_, iface, _, _, out) =>
      if Applies(w.net, iface, out) {
        TimersMatchApply(w, e);
      } else {
        TimersMatchLess(w, Step(w, e));
      }
    case Reverted(id, ok) =>
      RevertShrinks(w.net, id, ok);
      TimersMatchLess(w, Step(w, e));
    case TimerFired(t, ok) =>
      RevertShrinks(w.net, t.id, ok);
      TimersMatchLess(w, Step(w, e));
    case CleanedUp(id, ok) =>
      RevertShrinks(w.net, id, ok);
      TimersMatchLess(w, Step(w, e));
    case RevertedAll(_, _) => TimersMatchLess(w, Step(w, e));
    case TimePassed(_) => TimersMatchLess(w, Step(w, e));
    case Scanned =>
  }

  /** An explicit request to end the experiment. */
  ghost predicate AsksToEnd(w: World, e: Event, id: string) {
    || e == Reverted(id, true) || e == Reverted(id, false)
    || (e.RevertedAll? && id in w.net.experiments && w.net.experiments[id].iface == e.iface)
  }

  ghost predicate PastTtl(w: World, id: string) {
    id in w.net.experiments && w.net.experiments[id].ttl > 0
    && w.now >= w.net.experiments[id].start + w.net.experiments[id].ttl
  }

  /** An experiment leaves the table only when asked to, or once its TTL is over. */
  lemma NoEarlyRevertStep(w: World, e: Event, id: string)
    requires TimersMatch(w) && Fresh(w, e) && Enabled(w, e)
    requires id in w.net.experiments && (id !in Step(w, e).net.experiments
                                         || Step(w, e).net.experiments[id] != w.net.experiments[id])
    ensures AsksToEnd(w, e, id) || PastTtl(w, id)
  {
    match e
    case Reverted(other, ok) => RevertShrinks(w.net, other, ok);
    case TimerFired(t, ok) => RevertShrinks(w.net, t.id, ok);
    case CleanedUp(other, ok) => RevertShrinks(w.net, other, ok);
    case Applied(_, _, _, _, _) => ApplyKeeps(w, e, id);
    case RevertedAll(iface, _) => assert id in On(w.net.experiments, iface);
    case Scanned =>
    case TimePassed(_) =>
  }

  lemma ApplyKeeps(w: World, e: Event, id: string)
    requires e.Applied? && Fresh(w, e) && id in w.used && id in w.net.experiments
    ensures id in Step(w, e).net.experiments && Step(w, e).net.experiments[id] == w.net.experiments[id]
  {
  }

  /** The event that ends or replaces `id`, if one does, was a request or came after the TTL. */
  ghost predicate EndsInTime(w: World, events: seq<Event>, id: string)
    requires id in w.net.experiments
    decreases |events|
  {
    events != [] ==>
      var next := Step(w, events[0]);
      if id in next.net.experiments && next.net.experiments[id] == w.net.experiments[id] then
        EndsInTime(next, events[1..], id)
      else
        AsksToEnd(w, events[0], id) || PastTtl(w, id)
  }

  lemma {:induction false} NoEarlyRevertFrom(w: World, events: seq<Event>, id: string)
    requires TimersMatch(w) && FreshRun(w, events) && Possible(w, events) && id in w.net.experiments
    ensures EndsInTime(w, events, id)
    decreases |events|
  {
    if events == [] {
    } else {
      var next := Step(w, events[0]);
      TimersMatchStep(w, events[0]);
      if id in next.net.experiments && next.net.experiments[id] == w.net.experiments[id] {
        NoEarlyRevertFrom(next, events[1..], id);
      } else {
        NoEarlyRevertStep(w, events[0], id);
      }
    }
  }

  lemma {:induction false} TimersMatchRun(w: World, events: seq<Event>)
    requires TimersMatch(w) && FreshRun(w, events)
    ensures TimersMatch(Run(w, events))
    decreases |events|
  {
    if events == [] {
    } else {
      TimersMatchStep(w, events[0]);
      TimersMatchRun(Step(w, events[0]), events[1..]);
    }
  }

  /**
   No early automatic revert: however a run with fresh IDs began, an experiment live at some point
   of it is later ended only by an explicit revert or after its TTL.
   */
  lemma NoEarlyRevert(before: seq<Event>, after: seq<Event>, id: string)
    requires FreshRun(START, before) && FreshRun(Run(START, before), after) && Possible(Run(START, before), after)
    requires id in Run(START, before).net.experiments
    ensures EndsInTime(Run(START, before), after, id)
  {
    TimersMatchRun(START, before);
    NoEarlyRevertFrom(Run(START, before), after, id);
  }

  /** Once an ID is gone it stays gone, and every later revert of it, automatic or not, changes nothing. */
  lemma {:induction false} SecondRevertChangesNothing(w: World, events: seq<Event>, id: string, ok: bool)
    requires TimersMatch(w) && FreshRun(w, events)
    requires id in w.used && id !in w.net.experiments
    ensures id !in Run(w, events).net.experiments
    ensures Revert(Run(w, events).net, id, ok) == Run(w, events).net
    decreases |events|
  {
    if events == [] {
    } else {
      TimersMatchStep(w, events[0]);
      GoneStaysGone(w, events[0], id);
      SecondRevertChangesNothing(Step(w, events[0]), events[1..], id, ok);
    }
  }

  lemma GoneStaysGone(w: World, e: Event, id: string)
    requires Fresh(w, e) && id in w.used && id !in w.net.experiments
    ensures id in Step(w, e).used && id !in Step(w, e).net.experiments
  {
    match e
    case Reverted(other, ok) => RevertShrinks(w.net, other, ok);
    case TimerFired(t, ok) => RevertShrinks(w.net, t.id, ok);
    case CleanedUp(other, ok) => RevertShrinks(w.net, other, ok);
    case Applied(_, _, _, _, _) =>
    case RevertedAll(_, _) =>
    case Scanned =>
    case TimePassed(_) =>
  }

  // ---------------------------------------------------------------- reused IDs, exactly

  /** Something pending can revert the live experiment `id` before its TTL without being asked. */
  ghost predicate Threatened(w: World, id: string)
    requires id in w.net.experiments
  {
    var x := w.net.experiments[id];
    id in w.expired || exists t :: t in w.timers && t.id == id && (x.ttl <= 0 || t.due < x.start + x.ttl)
  }

  ghost predicate NeverAppliedAgain(events: seq<Event>, id: string) {
    forall i :: 0 <= i < |events| && events[i].Applied? ==> events[i].id != id
  }

  /** In some continuation that does not apply `id` again, it is ended early and unasked. */
  ghost predicate CanEndEarly(w: World, id: string)
    requires id in w.net.experiments
  {
    exists events :: NeverAppliedAgain(events, id) && Possible(w, events) && !EndsInTime(w, events, id)
  }

  /** Whatever is pending for `id` is pending for a good reason. */
  ghost predicate Calm(w: World, id: string) {
    id in w.net.experiments && (PastTtl(w, id) || !Threatened(w, id))
  }

  lemma CalmApply(w: World, e: Event, id: string)
    requires Calm(w, id) && e.Applied? && e.id != id
    ensures Calm(Step(w, e), id) && Step(w, e).net.experiments[id] == w.net.experiments[id]
  {
    var w' := Step(w, e);
    assert id in w'.net.experiments && w'.net.experiments[id] == w.net.experiments[id];
    forall t | t in w'.timers && t.id == id ensures t in w.timers { }
  }

  lemma ScanThreatens(w: World, id: string)
    requires id in w.net.experiments && Threatened(Step(w, Scanned), id)
    ensures Threatened(w, id) || PastTtl(w, id)
  {
  }

  lemma FewerThreats(w: World, w': World, id: string)
    requires id in w.net.experiments && id in w'.net.experiments && w'.net.experiments[id] == w.net.experiments[id]
    requires (forall t :: t in w'.timers ==> t in w.timers) && w'.expired <= w.expired && Threatened(w', id)
    ensures Threatened(w, id)
  {
    if id !in w'.expired {
      var x := w.net.experiments[id];
      var t :| t in w'.timers && t.id == id && (x.ttl <= 0 || t.due < x.start + x.ttl);
      assert t in w.timers;
    }
  }

  lemma CalmScan(w: World, id: string)
    requires Calm(w, id)
    ensures Calm(Step(w, Scanned), id)
  {
    if Threatened(Step(w, Scanned), id) {
      ScanThreatens(w, id);
    }
  }

  lemma CalmRevert(w: World, w': World, id: string)
    requires Calm(w, id) && id in w'.net.experiments && w'.net.experiments[id] == w.net.experiments[id]
    requires w'.now >= w.now && (forall t :: t in w'.timers ==> t in w.timers) && w'.expired <= w.expired
    ensures Calm(w', id)
  {
    if Threatened(w', id) {
      FewerThreats(w, w', id);
    }
  }

  /** Reverting any ID, asked for or not, either ends `id` or leaves it calm. */
  lemma CalmUnlessEnded(w: World, w': World, other: string, id: string, ok: bool)
    requires Calm(w, id) && w'.net == Revert(w.net, other, ok) && w'.now == w.now
    requires (forall t :: t in w'.timers ==> t in w.timers) && w'.expired <= w.expired
    ensures id in w'.net.experiments ==> w'.net.experiments[id] == w.net.experiments[id] && Calm(w', id)
    ensures id !in w'.net.experiments ==> other == id
  {
    RevertShrinks(w.net, other, ok);
    if id in w'.net.experiments {
      CalmRevert(w, w', id);
    }
  }

  /** A calm experiment stays calm until it is ended, and is ended only on request or past its TTL. */
  lemma CalmStep(w: World, e: Event, id: string)
    requires Calm(w, id) && Enabled(w, e) && (e.Applied? ==> e.id != id)
    ensures var w' := Step(w, e);
            if id in w'.net.experiments && w'.net.experiments[id] == w.net.experiments[id] then Calm(w', id)
            else AsksToEnd(w, e, id) || PastTtl(w, id)
  {
    var w' := Step(w, e);
    match e
    case Applied(_, _, _, _, _) => CalmApply(w, e, id);
    case Scanned => CalmScan(w, id);
    case Reverted(other, ok) => CalmUnlessEnded(w, w', other, id, ok);
    case TimerFired(t, ok) => CalmUnlessEnded(w, w', t.id, id, ok);
    case CleanedUp(other, ok) => CalmUnlessEnded(w, w', other, id, ok);
    case RevertedAll(iface, ok) =>
      if id in w'.net.experiments {
        CalmRevert(w, w', id);
      } else {
        assert id in On(w.net.experiments, iface);
      }
    case TimePassed(_) => CalmRevert(w, w', id);
  }

  lemma {:induction false} CalmEndsInTime(w: World, events: seq<Event>, id: string)
    requires Calm(w, id) && Possible(w, events) && NeverAppliedAgain(events, id)
    ensures EndsInTime(w, events, id)
    decreases |events|
  {
    if events == [] {
    } else {
      var next := Step(w, events[0]);
      CalmStep(w, events[0], id);
      if id in next.net.experiments && next.net.experiments[id] == w.net.experiments[id] {
        assert forall i :: 0 <= i < |events[1..]| ==> events[1..][i] == events[i + 1];
        CalmEndsInTime(next, events[1..], id);
      }
    }
  }

  /** One automatic revert of a live experiment ends it. */
  lemma EndsNow(w: World, e: Event, id: string)
    requires Safe(w.net) && Enabled(w, e) && id in w.net.experiments && !PastTtl(w, id)
    requires (e.TimerFired? && e.timer.id == id) || (e.CleanedUp? && e.id == id)
    ensures Possible(w, [e]) && !EndsInTime(w, [e], id)
  {
    assert [e][1..] == [];
    assert Possible(Step(w, e), []);
    assert w.net.experiments[id].iface in w.net.kernel;
    assert id !in Step(w, e).net.experiments;
  }

  lemma EndsAfterWait(w: World, t: Timer, id: string)
    requires Safe(w.net) && id in w.net.experiments && t in w.timers && t.id == id && !PastTtl(w, id)
    requires w.net.experiments[id].ttl <= 0 || t.due < w.net.experiments[id].start + w.net.experiments[id].ttl
    ensures var events := [TimePassed(if t.due > w.now then t.due - w.now else 0), TimerFired(t, true)];
            NeverAppliedAgain(events, id) && Possible(w, events) && !EndsInTime(w, events, id)
  {
    var wait, fire := TimePassed(if t.due > w.now then t.due - w.now else 0), TimerFired(t, true);
    var later := Step(w, wait);
    assert [wait, fire][1..] == [fire];
    EndsNow(later, fire, id);
  }

  /** An experiment can be ended early and unasked exactly while it is threatened and its TTL is not over. */
  lemma EndsEarlyExactly(w: World, id: string)
    requires Safe(w.net) && id in w.net.experiments
    ensures CanEndEarly(w, id) <==> Threatened(w, id) && !PastTtl(w, id)
  {
    if Calm(w, id) {
      forall events | NeverAppliedAgain(events, id) && Possible(w, events) ensures EndsInTime(w, events, id) {
        CalmEndsInTime(w, events, id);
      }
    } else if id in w.expired {
      EndsNow(w, CleanedUp(id, true), id);
      assert NeverAppliedAgain([CleanedUp(id, true)], id);
    } else {
      var x := w.net.experiments[id];
      var t :| t in w.timers && t.id == id && (x.ttl <= 0 || t.due < x.start + x.ttl);
      EndsAfterWait(w, t, id);
    }
  }

  /** What a caller can look up before applying `id`: a collected ID, or a pending timer due too soon. */
  ghost predicate LeftoverThreat(w: World, id: string, ttl: int) {
    id in w.expired || exists t :: t in w.timers && t.id == id && (ttl <= 0 || t.due < w.now + ttl)
  }

  lemma ThreatFromCall(w: World, id: string, iface: string, config: Config, ttl: int, out: Outcome)
    requires Applies(w.net, iface, out)
    ensures var w' := Step(w, Applied(id, iface, config, ttl, out));
            id in w'.net.experiments && !PastTtl(w', id) && (Threatened(w', id) <==> LeftoverThreat(w, id, ttl))
  {
    var w' := Step(w, Applied(id, iface, config, ttl, out));
    assert w'.net.experiments[id] == Experiment(iface, config, w.now, ttl);
    forall t | t in w'.timers && t !in w.timers ensures t == Timer(id, w.now + ttl) { }
    forall t | t in w.timers ensures t in w'.timers { }
  }

  /**
   Fresh IDs are sufficient; this is what is necessary.  After a successful Apply, used ID or not,
   some continuation that does not apply the ID again ends it early and unasked if and only if, at
   the call, a scan had collected the ID or one of its timers was pending and due before the new TTL.
   */
  lemma ReuseEndsEarlyExactly(w: World, id: string, iface: string, config: Config, ttl: int, out: Outcome)
    requires Safe(w.net) && Applies(w.net, iface, out)
    ensures var w' := Step(w, Applied(id, iface, config, ttl, out));
            id in w'.net.experiments && (CanEndEarly(w', id) <==> LeftoverThreat(w, id, ttl))
  {
    var e := Applied(id, iface, config, ttl, out);
    StepSafe(w, e);
    ThreatFromCall(w, id, iface, config, ttl, out);
    EndsEarlyExactly(Step(w, e), id);
  }

  // ---------------------------------------------------------------- runs that reuse IDs carefully

  /** No successful Apply of the run meets a leftover of an earlier use of its ID. */
  ghost predicate CarefulRun(w: World, events: seq<Event>)
    decreases |events|
  {
    events != [] ==>
      && (events[0].Applied? && Applies(w.net, events[0].iface, events[0].out) ==>
            !LeftoverThreat(w, events[0].id, events[0].ttl))
      && CarefulRun(Step(w, events[0]), events[1..])
  }

  ghost predicate AllCalm(w: World) {
    forall id :: id in w.net.experiments ==> Calm(w, id)
  }

  lemma ApplyRecordsOne(s: State, e: Event, now: int, id: string)
    requires e.Applied? && (Applies(s, e.iface, e.out) ==> e.id != id)
    requires id in Apply(s, e.id, e.iface, e.config, e.ttl, now, e.out).experiments
    ensures id in s.experiments
    ensures Apply(s, e.id, e.iface, e.config, e.ttl, now, e.out).experiments[id] == s.experiments[id]
  {
  }

  lemma OnlyApplyRecords(w: World, e: Event, id: string)
    requires id in Step(w, e).net.experiments && (e.Applied? && Applies(w.net, e.iface, e.out) ==> e.id != id)
    ensures id in w.net.experiments && Step(w, e).net.experiments[id] == w.net.experiments[id]
  {
    match e
    case Reverted(other, ok) => RevertShrinks(w.net, other, ok);
    case TimerFired(t, ok) => RevertShrinks(w.net, t.id, ok);
    case CleanedUp(other, ok) => RevertShrinks(w.net, other, ok);
    case Applied(_, _, _, _, _) => ApplyRecordsOne(w.net, e, w.now, id);
    case RevertedAll(_, _) =>
    case Scanned =>
    case TimePassed(_) =>
  }

  lemma CalmKept(w: World, e: Event, id: string)
    requires Enabled(w, e) && AllCalm(w) && id in Step(w, e).net.experiments
    requires e.Applied? && Applies(w.net, e.iface, e.out) ==> !LeftoverThreat(w, e.id, e.ttl)
    ensures Calm(Step(w, e), id)
  {
    if e.Applied? && Applies(w.net, e.iface, e.out) && e.id == id {
      ThreatFromCall(w, id, e.iface, e.config, e.ttl, e.out);
    } else {
      OnlyApplyRecords(w, e, id);
      if !(e.Applied? && e.id == id) {
        CalmStep(w, e, id);
      } else {
        CalmRevert(w, Step(w, e), id);
      }
    }
  }

  lemma {:induction false} AllCalmRun(w: World, events: seq<Event>)
    requires AllCalm(w) && Possible(w, events) && CarefulRun(w, events)
    ensures AllCalm(Run(w, events))
    decreases |events|
  {
    if events == [] {
    } else {
      forall id | id in Step(w, events[0]).net.experiments ensures Calm(Step(w, events[0]), id) {
        CalmKept(w, events[0], id);
      }
      AllCalmRun(Step(w, events[0]), events[1..]);
    }
  }

  /**
   No early automatic revert for reused IDs either: in a run whose Apply calls met no leftover, an
   experiment that is live and not applied again is later ended only on request or after its TTL.
   */
  lemma NoEarlyRevertWhenCareful(before: seq<Event>, after: seq<Event>, id: string)
    requires Possible(START, before) && CarefulRun(START, before) && id in Run(START, before).net.experiments
    requires Possible(Run(START, before), after) && NeverAppliedAgain(after, id)
    ensures EndsInTime(Run(START, before), after, id)
  {
    AllCalmRun(START, before);
    CalmEndsInTime(Run(START, before), after, id);
  }

  /** It does happen: reapplied at once with a longer TTL, an ID meets its first timer. */
  lemma ReusedIdEndsEarly(id: string, iface: string, config: Config, short: nat, long: nat)
    requires 0 < short < long
    ensures var ok := Outcome(true, true, true);
            var w := Step(Step(START, Applied(id, iface, config, short, ok)), Applied(id, iface, config, long, ok));
            id in w.net.experiments && CanEndEarly(w, id)
  {
    var ok := Outcome(true, true, true);
    var w := Step(START, Applied(id, iface, config, short, ok));
    StepSafe(START, Applied(id, iface, config, short, ok));
    assert Timer(id, short) in w.timers && w.now == 0;
    ReuseEndsEarlyExactly(w, id, iface, config, long, ok);
  }

  // ---------------------------------------------------------------- what the kernel is told

  /**
   A revert that leaves other experiments on the interface tells the kernel the effective fieldwise
   maximum of what remains; the interface's recorded `currentConfig` keeps its old value.
   */
  lemma RevertMerges(s: State, id: string)
    requires Safe(s) && id in s.experiments
    requires On(s.experiments, s.experiments[id].iface) != {id}
    ensures var iface := s.experiments[id].iface;
            var t := Revert(s, id, true);
            var rest := JoinOf(ConfigsOn(s.experiments - {id}, iface));
            && t.log == s.log + [Issued(Change, iface, Args(rest), true)]
            && iface in t.kernel && t.kernel[iface] == Effective(rest)
            && Decode(t.log[|s.log|].args, ZERO) == Some(t.kernel[iface])
            && t.interfaces == s.interfaces
  {
    var iface := s.experiments[id].iface;
    var rest := JoinOf(ConfigsOn(s.experiments - {id}, iface));
    assert On(s.experiments - {id}, iface) == On(s.experiments, iface) - {id};
    assert id in On(s.experiments, iface);
    ArgsDecode(rest);
  }

  // ---------------------------------------------------------------- when the record is right

  /** The recorded configuration of every interface with netem is the one the kernel has. */
  ghost predicate RecordMatches(s: State) {
    forall i :: i in s.kernel ==>
      && i in s.interfaces && s.interfaces[i].currentConfig.Some?
      && Effective(s.interfaces[i].currentConfig.value) == s.kernel[i]
  }

  /** A successful revert that leaves others on the interface and changes what the kernel has. */
  ghost predicate RevertMisrecords(s: State, id: string, ok: bool) {
    ok && id in s.experiments &&
    var iface, left := s.experiments[id].iface, s.experiments - {id};
    && On(left, iface) != {}
    && iface in s.kernel && Effective(JoinOf(ConfigsOn(left, iface))) != s.kernel[iface]
  }

  ghost predicate Misrecords(w: World, e: Event) {
    match e
    case Reverted(id, ok) => RevertMisrecords(w.net, id, ok)
    case TimerFired(t, ok) => RevertMisrecords(w.net, t.id, ok)
    case CleanedUp(id, ok) => RevertMisrecords(w.net, id, ok)
    case _ => false
  }

  lemma RevertRecord(s: State, id: string, ok: bool)
    requires Safe(s) && RecordMatches(s)
    ensures RecordMatches(Revert(s, id, ok)) <==> !RevertMisrecords(s, id, ok)
  {
    if id in s.experiments {
      var t, iface := Revert(s, id, ok), s.experiments[id].iface;
      assert iface in s.kernel && iface in s.interfaces && s.interfaces[iface].hasNetem;
      if RevertMisrecords(s, id, ok) {
        assert iface in t.kernel && t.interfaces[iface] == s.interfaces[iface];
      }
    }
  }

  /** A step makes the record wrong exactly when it is such a revert. */
  lemma RecordExactly(w: World, e: Event)
    requires Safe(w.net) && RecordMatches(w.net)
    ensures RecordMatches(Step(w, e).net) <==> !Misrecords(w, e)
  {
    match e
    case Applied(_, _, _, _, _) =>
    case Reverted(id, ok) => RevertRecord(w.net, id, ok);
    case TimerFired(t, ok) => RevertRecord(w.net, t.id, ok);
    case CleanedUp(id, ok) => RevertRecord(w.net, id, ok);
    case RevertedAll(_, _) =>
    case Scanned =>
    case TimePassed(_) =>
  }

  ghost predicate RecordMatchesThroughout(w: World, events: seq<Event>)
    decreases |events|
  {
    RecordMatches(w.net) && (events != [] ==> RecordMatchesThroughout(Step(w, events[0]), events[1..]))
  }

  ghost predicate NeverMisrecords(w: World, events: seq<Event>)
    decreases |events|
  {
    events != [] ==> !Misrecords(w, events[0]) && NeverMisrecords(Step(w, events[0]), events[1..])
  }

  lemma {:induction false} RecordOverRuns(w: World, events: seq<Event>)
    requires Safe(w.net) && RecordMatches(w.net)
    ensures RecordMatchesThroughout(w, events) <==> NeverMisrecords(w, events)
    decreases |events|
  {
    if events == [] {
    } else {
      RecordExactly(w, events[0]);
      if !Misrecords(w, events[0]) {
        StepSafe(w, events[0]);
        RecordOverRuns(Step(w, events[0]), events[1..]);
      }
    }
  }

  /** The record is right after every event of a run of a new manager exactly when no revert misrecords. */
  lemma RecordFromStart(events: seq<Event>)
    ensures RecordMatchesThroughout(START, events) <==> NeverMisrecords(START, events)
  {
    RecordOverRuns(START, events);
  }

  /**
   It does happen: with two experiments on one interface, reverting the second leaves its
   configuration on record unless the first one's has the same effect.
   */
  lemma SecondRevertMisrecords(first: string, second: string, iface: string, a: Config, b: Config)
    requires first != second
    ensures var ok := Outcome(true, true, true);
            var w := Step(Step(START, Applied(first, iface, a, 0, ok)), Applied(second, iface, b, 0, ok));
            Misrecords(w, Reverted(second, true)) <==> Effective(a) != Effective(b)
  {
    var ok := Outcome(true, true, true);
    var w := Step(Step(START, Applied(first, iface, a, 0, ok)), Applied(second, iface, b, 0, ok));
    var left := w.net.experiments - {second};
    assert left == map[first := Experiment(iface, a, 0, 0)];
    assert On(left, iface) == {first};
    assert ConfigsOn(left, iface) == {} + {a};
    JoinWithNew({}, a);
    JoinAdds(a, ZERO);
  }

  // ---------------------------------------------------------------- when Apply keeps the merge

  /** `config` alone tells `tc` at least what `other` asks for; jitter counts only with a delay. */
  predicate Covers(config: Config, other: Config) {
    && other.delay <= Max(0, config.delay) && (config.delay > 0 ==> other.jitter <= Max(0, config.jitter))
    && other.loss <= Max(0, config.loss) && other.duplicate <= Max(0, config.duplicate)
    && other.corrupt <= Max(0, config.corrupt) && other.reorder <= Max(0, config.reorder)
    && other.rate <= Max(0, config.rate) && other.limit <= Max(0, config.limit)
  }

  lemma JoinAdds(config: Config, r: Config)
    requires Leq(ZERO, r)
    ensures Effective(Join(r, config)) == Effective(config) <==> Covers(config, r)
  {
  }

  lemma CoversJoin(config: Config, others: set<Config>, r: Config)
    requires IsJoin(others, r)
    ensures Covers(config, r) <==> forall o :: o in others ==> Covers(config, o)
  {
    if forall o :: o in others ==> Covers(config, o) {
      var bound := Config(Max(0, config.delay), if config.delay > 0 then Max(0, config.jitter) else r.jitter,
                          Max(0, config.loss), Max(0, config.duplicate), Max(0, config.corrupt),
                          Max(0, config.reorder), Max(0, config.rate), Max(0, config.limit));
      assert UpperBound(others, bound);
    }
  }

  lemma JoinWithNew(others: set<Config>, config: Config)
    ensures JoinOf(others + {config}) == Join(JoinOf(others), config)
  {
    var r, all := JoinOf(others), others + {config};
    forall b | UpperBound(all, b) ensures Leq(Join(r, config), b) {
      assert UpperBound(others, b) && config in all;
    }
    JoinUnique(all, JoinOf(all), Join(r, config));
  }

  lemma ConfigsAfterApply(experiments: map<string, Experiment>, id: string, x: Experiment)
    ensures ConfigsOn(experiments[id := x], x.iface) == ConfigsOn(experiments - {id}, x.iface) + {x.config}
  {
    var before, after := experiments - {id}, experiments[id := x];
    forall c | c in ConfigsOn(before, x.iface) ensures c in ConfigsOn(after, x.iface) {
      var k :| k in On(before, x.iface) && before[k].config == c;
      assert k in On(after, x.iface) && after[k].config == c;
    }
    assert id in On(after, x.iface);
    forall c | c in ConfigsOn(after, x.iface) ensures c in ConfigsOn(before, x.iface) + {x.config} {
      var k :| k in On(after, x.iface) && after[k].config == c;
      if k != id {
        assert k in On(before, x.iface) && before[k].config == c;
      }
    }
  }

  /**
   A successful Apply replaces what the kernel has on the interface instead of merging it.  The
   kernel then has the merge of all live configurations there if and only if the new configuration
   covers that of every other live experiment on the interface.
   */
  lemma ApplyMergesExactly(s: State, id: string, iface: string, config: Config, ttl: int, now: int, out: Outcome)
    requires Applies(s, iface, out)
    ensures var t := Apply(s, id, iface, config, ttl, now, out);
            iface in t.kernel &&
            (t.kernel[iface] == Effective(JoinOf(ConfigsOn(t.experiments, iface))) <==>
             forall other :: other in On(s.experiments - {id}, iface) ==> Covers(config, s.experiments[other].config))
  {
    var others := ConfigsOn(s.experiments - {id}, iface);
    ConfigsAfterApply(s.experiments, id, Experiment(iface, config, now, ttl));
    JoinWithNew(others, config);
    JoinAdds(config, JoinOf(others));
    CoversJoin(config, others, JoinOf(others));
    ConfigsCovered(s.experiments - {id}, iface, config);
  }

  lemma ConfigsCovered(experiments: map<string, Experiment>, iface: string, config: Config)
    ensures (forall o :: o in ConfigsOn(experiments, iface) ==> Covers(config, o)) <==>
            forall k :: k in On(experiments, iface) ==> Covers(config, experiments[k].config)
  {
    forall k | k in On(experiments, iface) ensures experiments[k].config in ConfigsOn(experiments, iface) { }
  }
}
