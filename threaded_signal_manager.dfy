/** The signal manager of usr/lib/simbuto/python/simbuto/signalmanager.py:
    the same registry as the plain one, except that every record also holds
    a `threading.Event` created when the name is registered, and that the
    manager can hand out the `wait` of a signal's event. The manager's own
    thread is left out; the actions part of every operation is specified by
    the same table functions as the plain manager. */
module ThreadedSignalManager {
  import opened Signals
  import Registry

  /** A `threading.Event`: an object of its own with an internal flag that
      starts unset. Nothing in the manager ever sets or clears it. */
  class Event {
    var flag: bool

    constructor ()
      ensures !flag
    {
      flag := false;
    }
  }

  /** One record of the `signals` dict: its "event" and its "actions". */
  datatype Record<A> = Record(event: Event, actions: seq<A>)

  /** The action lists of a registry of records. */
  function Actions<A>(m: map<string, Record<A>>): Registry.Table<A>
  {
    map n | n in m :: m[n].actions
  }

  lemma ActionsUpdate<A>(m: map<string, Record<A>>, name: string, rec: Record<A>)
    ensures Actions(m[name := rec]) == Actions(m)[name := rec.actions]
  {
  }

  lemma ActionsRemove<A>(m: map<string, Record<A>>, name: string)
    ensures Actions(m - {name}) == Actions(m) - {name}
  {
  }

  class SignalManager<A(==)> {
    var signals: map<string, Record<A>>

    constructor ()
      ensures signals == map[]
    {
      signals := map[];
    }

    /** The `signals` setter: replaces the whole registry. */
    method SetSignals(newSignals: map<string, Record<A>>)
      modifies this
      ensures signals == newSignals
    {
      signals := newSignals;
    }

    /** Names already present keep their whole record, event included; each
        new name gets an empty action list and an Event of its own. */
    method AddSignals(names: seq<string>)
      modifies this
      ensures Actions(signals) == Registry.AddAll(Actions(old(signals)), names)
      ensures forall n :: n in old(signals) ==> n in signals && signals[n] == old(signals)[n]
      ensures forall n :: n in signals && n !in old(signals) ==>
                fresh(signals[n].event) && !signals[n].event.flag
      ensures forall n, n' :: n in signals && n' in signals && n != n' && n !in old(signals) ==>
                signals[n].event != signals[n'].event
    {
      for i := 0 to |names|
        invariant Actions(signals) == Registry.AddAll(Actions(old(signals)), names[..i])
        invariant forall n :: n in old(signals) ==> n in signals && signals[n] == old(signals)[n]
        invariant forall n :: n in signals && n !in old(signals) ==>
                    fresh(signals[n].event) && !signals[n].event.flag
        invariant forall n, n' :: n in signals && n' in signals && n != n' && n !in old(signals) ==>
                    signals[n].event != signals[n'].event
      {
        assert names[..i + 1][..i] == names[..i];
        if names[i] in signals {
          continue;
        }
        var event := new Event();
        ActionsUpdate(signals, names[i], Record(event, []));
        signals := signals[names[i] := Record(event, [])];
      }
      assert names[..|names|] == names;
    }

    /** Listed names lose their record, event included; absent names are
        accepted; every other record is kept as it was. */
    method RemoveSignals(names: seq<string>)
      modifies this
      ensures Actions(signals) == Registry.RemoveAll(Actions(old(signals)), names)
      ensures forall n :: n in signals ==> n in old(signals) && signals[n] == old(signals)[n]
    {
      for i := 0 to |names|
        invariant Actions(signals) == Registry.RemoveAll(Actions(old(signals)), names[..i])
        invariant forall n :: n in signals ==> n in old(signals) && signals[n] == old(signals)[n]
      {
        assert names[..i + 1][..i] == names[..i];
        ActionsRemove(signals, names[i]);
        signals := signals - {names[i]};
      }
      assert names[..|names|] == names;
    }

    method RemoveAllSignals()
      modifies this
      ensures signals == map[]
    {
      signals := map[];
    }

    /** Registers an unknown name (with a new Event), then fails with
        AssertionError if `callable(action)` is false, else appends. Events
        of names already present are kept. */
    method ConnectToSignal(name: string, action: A, callable: A -> bool) returns (raised: Option<Exception>)
      modifies this
      ensures Registry.Step(Actions(signals), raised)
              == Registry.Connect(Actions(old(signals)), name, action, callable(action))
      ensures forall n :: n in old(signals) ==> n in signals && signals[n].event == old(signals)[n].event
      ensures name !in old(signals) ==> fresh(signals[name].event) && !signals[name].event.flag
    {
      if name !in signals {
        AddSignals([name]);
      }
      if !callable(action) {
        return Some(AssertionError);
      }
      var rec := signals[name];
      ActionsUpdate(signals, name, Record(rec.event, rec.actions + [action]));
      signals := signals[name := Record(rec.event, rec.actions + [action])];
      raised := None;
    }

    /** Removes the first occurrence of the action; an unknown name is only a
        warning, an action that is not connected raises ValueError. The
        signal keeps its Event. */
    method DisconnectFromSignal(name: string, action: A) returns (raised: Option<Exception>)
      modifies this
      ensures Registry.Step(Actions(signals), raised) == Registry.Disconnect(Actions(old(signals)), name, action)
      ensures signals.Keys == old(signals).Keys
      ensures forall n :: n in signals ==> signals[n].event == old(signals)[n].event
    {
      if name !in signals {
        return None;
      }
      var rec := signals[name];
      var removed := ListRemove(rec.actions, action);
      match removed {
        case Returned(s) =>
          ActionsUpdate(signals, name, Record(rec.event, s));
          signals := signals[name := Record(rec.event, s)];
          raised := None;
        case Raised(e) =>
          raised := Some(e);
      }
    }

    /** Calls the actions like the plain manager; the lines that would set
        and clear the signal's Event around the calls are commented out in
        the source, so nothing changes, no Event included. */
    method EmitSignal<D, R>(name: string, call: (A, D) -> Outcome<R>, data: D) returns (r: Outcome<seq<R>>)
      ensures r == Registry.Emit(Actions(signals), name, call, data)
    {
      if name !in signals {
        return Returned([]);
      }
      var rec := signals[name];
      var run := CallEach(rec.actions, call, data);
      match run.stopped {
        case None => r := Returned(run.results);
        case Some(e) =>
          r := if e == KeyError then Returned(run.results) else Raised(e);
      }
    }

    /** `get_wait_for_signal_callback(name)`: the `wait` of the signal's own
        Event, represented by that Event; `None` for an unknown name, which
        stays unknown. */
    method GetWaitForSignalCallback(name: string) returns (wait: Option<Event>)
      ensures wait.Some? <==> name in signals
      ensures wait.Some? ==> wait.value == signals[name].event
    {
      if name !in signals {
        return None;
      }
      wait := Some(signals[name].event);
    }
  }

  /** Removing a name and registering it again gives it an empty action list
      and a new Event, never the one it had before. */
  method ReRegister<A(==)>(bus: SignalManager<A>, name: string)
    requires name in bus.signals
    modifies bus
    ensures name in bus.signals && bus.signals[name].actions == []
    ensures bus.signals[name].event != old(bus.signals[name].event)
  {
    bus.RemoveSignals([name]);
    bus.AddSignals([name]);
  }
}
