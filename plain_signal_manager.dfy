/** The signal manager of lib/simbuto/python/simbuto/signalmanager.py: a
    registry from signal names to the ordered list of actions connected to
    each, updated in place. Actions are values of any type with equality;
    whether one is callable, and what calling it with the emitted data does,
    are given by the caller. */
module PlainSignalManager {
  import opened Signals
  import Registry

  class SignalManager<A(==)> {
    /** The `signals` dict; each record's "actions" list is the sequence. */
    var signals: Registry.Table<A>

    constructor ()
      ensures signals == map[]
    {
      signals := map[];
    }

    /** The `signals` setter: replaces the whole registry. */
    method SetSignals(newSignals: Registry.Table<A>)
      modifies this
      ensures signals == newSignals
    {
      signals := newSignals;
    }

    method AddSignals(names: seq<string>)
      modifies this
      ensures signals == Registry.AddAll(old(signals), names)
    {
      for i := 0 to |names|
        invariant signals == Registry.AddAll(old(signals), names[..i])
      {
        assert names[..i + 1][..i] == names[..i];
        if names[i] in signals {
          continue;
        }
        signals := signals[names[i] := []];
      }
      assert names[..|names|] == names;
    }

    method RemoveSignals(names: seq<string>)
      modifies this
      ensures signals == Registry.RemoveAll(old(signals), names)
    {
      for i := 0 to |names|
        invariant signals == Registry.RemoveAll(old(signals), names[..i])
      {
        assert names[..i + 1][..i] == names[..i];
        signals := signals - {names[i]};
      }
      assert names[..|names|] == names;
    }

    method RemoveAllSignals()
      modifies this
      ensures signals == map[]
    {
      signals := map[];
    }

    /** Returns the exception that escapes, if any: AssertionError when
        `callable(action)` is false. */
    method ConnectToSignal(name: string, action: A, callable: A -> bool) returns (raised: Option<Exception>)
      modifies this
      ensures Registry.Step(signals, raised) == Registry.Connect(old(signals), name, action, callable(action))
    {
      if name !in signals {
        AddSignals([name]);
      }
      if !callable(action) {
        return Some(AssertionError);
      }
      signals := signals[name := signals[name] + [action]];
      raised := None;
    }

    /** Returns the exception that escapes, if any: the ValueError of
        `list.remove` when the action is not connected. */
    method DisconnectFromSignal(name: string, action: A) returns (raised: Option<Exception>)
      modifies this
      ensures Registry.Step(signals, raised) == Registry.Disconnect(old(signals), name, action)
    {
      if name !in signals {
        return None;
      }
      var removed := ListRemove(signals[name], action);
      match removed {
        case Returned(s) =>
          signals := signals[name := s];
          raised := None;
        case Raised(e) =>
          raised := Some(e);
      }
    }

    method EmitSignal<D, R>(name: string, call: (A, D) -> Outcome<R>, data: D) returns (r: Outcome<seq<R>>)
      ensures r == Registry.Emit(signals, name, call, data)
    {
      if name !in signals {
        return Returned([]);
      }
      var run := CallEach(signals[name], call, data);
      match run.stopped {
        case None => r := Returned(run.results);
        case Some(e) =>
          r := if e == KeyError then Returned(run.results) else Raised(e);
      }
    }
  }
}
